/** Request and result shapes of the Diesel parser facade (`parse` and `predict`).
    The parser itself is an external collaborator: its answers reach the model as
    values of these types, never as computations. */
module Facade {

  datatype Option<+T> = None | Some(value: T)

  /** A style span reported by a parse: the style `name` over `length` characters from `offset`. */
  datatype Style = Style(name: string, offset: nat, length: nat)

  /** A marker reported by a parse; `message` stands for `marker.getMessage("en")`. */
  datatype Marker = Marker(offset: nat, length: nat, severity: string, message: string)

  /** The request handed to `parse`: the full text and the optional grammar entry point. */
  datatype ParseRequest = ParseRequest(text: string, axiom: Option<string>)

  datatype ParseResult =
    | Parsed(styles: seq<Style>, markers: seq<Marker>)
    | ParseFailed(error: string)

  /** A completion proposal; `text` is the only field the editor glue reads. */
  datatype Proposal = Proposal(text: string)

  datatype PredictResult =
    | Predicted(proposals: seq<Proposal>)
    | PredictFailed(error: string)
}
