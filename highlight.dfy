/** Semantic highlighting: the style-name lookup of the two client pages and the
    provider loop that pushes one token per accepted style into the builder. */
module Highlight {
  import opened Facade
  import opened Editor

  /** `tokenTypes`: the legend the semantic-tokens provider is registered with. */
  const TOKEN_TYPES: seq<string> := ["number", "string", "keyword", "property"]

  /** `getTokenType`: number, string and keyword name themselves, attr is a property,
      and no other style is highlighted. */
  function GetTokenType(styleName: string): (t: Option<string>)
    ensures t.Some? <==> styleName in {"number", "string", "keyword", "attr"}
    ensures styleName in {"number", "string", "keyword"} ==> t == Some(styleName)
    ensures styleName == "attr" ==> t == Some("property")
  {
    match styleName
    case "number" => Some(styleName)
    case "string" => Some(styleName)
    case "keyword" => Some(styleName)
    case "attr" => Some("property")
    case _ => None
  }

  /** Every type `getTokenType` produces is declared in the legend, and none is the
      empty string that a JavaScript `if (tokenType)` would drop. */
  lemma TokenTypesInLegend(styleName: string)
    requires GetTokenType(styleName).Some?
    ensures GetTokenType(styleName).value in TOKEN_TYPES
    ensures GetTokenType(styleName).value != ""
  {
  }

  /** The JavaScript truth test `if (tokenType)` on `string | undefined`. */
  predicate Truthy(t: Option<string>)
  {
    t.Some? && t.value != ""
  }

  /** How a provider decides on a style: where the style-to-type lookup comes from,
      whether a token whose start and end positions lie on different lines is dropped,
      and the legend its `SemanticTokensBuilder` is created with. */
  datatype TokenPolicy = TokenPolicy(
    styleToToken: string -> Option<string>,
    singleLineOnly: bool,
    legend: seq<string>)

  /** The token one style contributes, if any. */
  function Emit(policy: TokenPolicy, text: string, positionAt: PositionAt, style: Style): (t: Option<SemanticToken>)
    ensures t.Some? <==>
      && Truthy(policy.styleToToken(style.name))
      && (policy.singleLineOnly ==>
            positionAt(text, style.offset).line == positionAt(text, style.offset + style.length).line)
    ensures t.Some? ==>
      && t.value.tokenType == policy.styleToToken(style.name).value
      && t.value.range == Range(positionAt(text, style.offset), positionAt(text, style.offset + style.length))
  {
    var tokenType := policy.styleToToken(style.name);
    if !Truthy(tokenType) then None
    else
      var p1 := positionAt(text, style.offset);
      var p2 := positionAt(text, style.offset + style.length);
      if policy.singleLineOnly && p1.line != p2.line then None
      else Some(SemanticToken(Range(p1, p2), tokenType.value))
  }

  /** The tokens pushed for a list of styles, in style order. */
  function Tokens(policy: TokenPolicy, text: string, positionAt: PositionAt, styles: seq<Style>): (ts: seq<SemanticToken>)
  {
    if styles == [] then []
    else
      (match Emit(policy, text, positionAt, styles[0])
       case Some(t) => [t]
       case None => [])
      + Tokens(policy, text, positionAt, styles[1..])
  }

  /** Tokens of consecutive style lists follow each other: the builder sees the styles' order. */
  lemma {:induction false} TokensAppend(policy: TokenPolicy, text: string, positionAt: PositionAt, a: seq<Style>, b: seq<Style>)
    ensures Tokens(policy, text, positionAt, a + b) == Tokens(policy, text, positionAt, a) + Tokens(policy, text, positionAt, b)
  {
    if a != [] {
      assert (a + b)[1..] == a[1..] + b;
      TokensAppend(policy, text, positionAt, a[1..], b);
    } else {
      assert a + b == b;
    }
  }

  /** A token is pushed exactly when some style emits it: nothing is invented and no
      accepted style is lost. */
  lemma {:induction false} TokensMembers(policy: TokenPolicy, text: string, positionAt: PositionAt, styles: seq<Style>, t: SemanticToken)
    ensures t in Tokens(policy, text, positionAt, styles) <==>
      exists i | 0 <= i < |styles| :: Emit(policy, text, positionAt, styles[i]) == Some(t)
  {
    if styles != [] {
      TokensMembers(policy, text, positionAt, styles[1..], t);
      if exists i | 0 <= i < |styles| :: Emit(policy, text, positionAt, styles[i]) == Some(t) {
        var i :| 0 <= i < |styles| && Emit(policy, text, positionAt, styles[i]) == Some(t);
        if i > 0 {
          assert styles[1..][i - 1] == styles[i];
        }
      }
      if t in Tokens(policy, text, positionAt, styles[1..]) {
        var i :| 0 <= i < |styles[1..]| && Emit(policy, text, positionAt, styles[1..][i]) == Some(t);
        assert styles[i + 1] == styles[1..][i];
      }
    }
  }

  /** At most one token per style. */
  lemma {:induction false} TokensAtMostStyles(policy: TokenPolicy, text: string, positionAt: PositionAt, styles: seq<Style>)
    ensures |Tokens(policy, text, positionAt, styles)| <= |styles|
    ensures (forall i | 0 <= i < |styles| :: Emit(policy, text, positionAt, styles[i]).Some?) ==>
      |Tokens(policy, text, positionAt, styles)| == |styles|
  {
    if styles != [] {
      TokensAtMostStyles(policy, text, positionAt, styles[1..]);
      if forall i | 0 <= i < |styles| :: Emit(policy, text, positionAt, styles[i]).Some? {
        assert forall i | 0 <= i < |styles[1..]| :: styles[1..][i] == styles[i + 1];
      }
    }
  }

  /** What `SemanticTokensBuilder.push(range, tokenType)` accepts: a range on one line
      and a type declared in the builder's legend. Anything else makes it throw. */
  predicate Pushable(t: SemanticToken, legend: seq<string>)
  {
    t.range.start.line == t.range.end.line && t.tokenType in legend
  }

  /** Every token the styles emit is one the builder accepts. */
  predicate AllPushable(policy: TokenPolicy, text: string, positionAt: PositionAt, styles: seq<Style>)
  {
    forall i | 0 <= i < |styles| ::
      Emit(policy, text, positionAt, styles[i]).Some? ==>
        Pushable(Emit(policy, text, positionAt, styles[i]).value, policy.legend)
  }

  /** The `styles.forEach(...)` loop that pushes into the `SemanticTokensBuilder`.
      `None` stands for the exception the builder throws on a token it does not accept:
      it leaves the loop and rejects the provider's promise, so no tokens are shown. */
  method BuildTokens(policy: TokenPolicy, text: string, positionAt: PositionAt, styles: seq<Style>)
    returns (built: Option<seq<SemanticToken>>)
    ensures built.Some? <==> AllPushable(policy, text, positionAt, styles)
    ensures built.Some? ==> built.value == Tokens(policy, text, positionAt, styles)
  {
    var tokens := [];
    var i := 0;
    while i < |styles|
      invariant 0 <= i <= |styles|
      invariant tokens == Tokens(policy, text, positionAt, styles[..i])
      invariant forall k | 0 <= k < i ::
        Emit(policy, text, positionAt, styles[k]).Some? ==>
          Pushable(Emit(policy, text, positionAt, styles[k]).value, policy.legend)
    {
      assert styles[..i + 1] == styles[..i] + [styles[i]];
      TokensAppend(policy, text, positionAt, styles[..i], [styles[i]]);
      match Emit(policy, text, positionAt, styles[i]) {
        case Some(t) =>
          if !Pushable(t, policy.legend) {
            return None;
          }
          tokens := tokens + [t];
        case None =>
      }
      i := i + 1;
    }
    assert styles[..i] == styles;
    built := Some(tokens);
  }

  /** `provideDocumentSemanticTokens`: a failed parse builds an empty token set; a
      successful one builds the tokens of its styles, unless the builder rejects one. */
  method ProvideSemanticTokens(policy: TokenPolicy, text: string, positionAt: PositionAt, result: ParseResult)
    returns (built: Option<seq<SemanticToken>>)
    ensures result.ParseFailed? ==> built == Some([])
    ensures result.Parsed? ==> (built.Some? <==> AllPushable(policy, text, positionAt, result.styles))
    ensures result.Parsed? && built.Some? ==> built.value == Tokens(policy, text, positionAt, result.styles)
  {
    built := Some([]);
    if result.Parsed? {
      built := BuildTokens(policy, text, positionAt, result.styles);
    }
  }
}
