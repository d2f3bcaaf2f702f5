/** Debounced validation: the pending-validation registry (`pendingValidationRequests`),
    the timers the host has armed for it, and `doValidate`, which parses a document
    snapshot and publishes its diagnostics into the diagnostic collection. */
module Validation {
  import opened Facade
  import opened Editor
  import opened Markers

  /** A `window.setTimeout` handle. Handles are ids the host never reuses. */
  type Handle = nat

  /** A document snapshot: its URI and the full text captured when validation was asked for. */
  datatype Document = Document(uri: string, text: string)

  /** What a timer callback closes over: the snapshot to validate, the key its diagnostics
      are published under, and the grammar entry point handed to the parser. */
  datatype Job = Job(doc: Document, target: string, axiom: Option<string>)

  /** The effect of `doValidate` for `job` on the diagnostic collection and on the
      sequence of requests made to the parser. Empty text clears the whole collection
      without a parse; a failed parse leaves the collection as it was; a successful
      parse replaces the target's entry with one diagnostic per marker. */
  ghost predicate Validated(
    before: map<string, seq<Diagnostic>>, after: map<string, seq<Diagnostic>>,
    logBefore: seq<ParseRequest>, logAfter: seq<ParseRequest>,
    job: Job, parser: ParseRequest -> ParseResult, positionAt: PositionAt)
  {
    var text := job.doc.text;
    if |text| == 0 then
      after == map[] && logAfter == logBefore
    else
      var request := ParseRequest(text, job.axiom);
      && logAfter == logBefore + [request]
      && match parser(request)
         case ParseFailed(_) => after == before
         case Parsed(_, markers) => after == before[job.target := Diagnostics(text, positionAt, markers)]
  }

  class Validator {
    /** `pendingValidationRequests`: document URI to the handle of its pending timer. */
    var pending: map<string, Handle>
    /** The timers armed with the host and not yet fired or cleared, with their callbacks. */
    var armed: map<Handle, Job>
    /** The next handle `setTimeout` gives out. */
    var nextHandle: Handle
    /** `diagnosticCollection`: the diagnostics last published per key. */
    var collection: map<string, seq<Diagnostic>>
    /** Every request handed to the parser's `parse`, oldest first. */
    ghost var parseLog: seq<ParseRequest>

    /** Each URI has at most one armed timer and it is the registry's entry; every
        registry entry is armed; handles given out so far are below `nextHandle`. */
    ghost predicate Valid()
      reads this
    {
      && (forall uri | uri in pending :: pending[uri] in armed && armed[pending[uri]].doc.uri == uri)
      && (forall h | h in armed :: armed[h].doc.uri in pending && pending[armed[h].doc.uri] == h)
      && (forall h | h in armed :: h < nextHandle)
    }

    constructor ()
      ensures Valid()
      ensures pending == map[] && armed == map[] && collection == map[] && parseLog == []
    {
      pending, armed, nextHandle := map[], map[], 0;
      collection, parseLog := map[], [];
    }

    /** `cleanPendingValidation`: clears the URI's timer and forgets it; a URI with no
        entry is left alone. */
    method CleanPendingValidation(uri: string)
      requires Valid()
      modifies this`pending, this`armed
      ensures Valid()
      ensures uri !in old(pending) ==> pending == old(pending) && armed == old(armed)
      ensures uri in old(pending) ==>
        && pending == old(pending) - {uri}
        && armed == old(armed) - {old(pending)[uri]}
      ensures uri !in pending
    {
      if uri in pending {
        var request := pending[uri];
        armed := armed - {request};
        pending := pending - {uri};
      }
    }

    /** `doValidateDocument` / `validate`: cancels the document's pending timer, arms a
        fresh one for `job` and records it as the URI's entry. */
    method Schedule(job: Job) returns (h: Handle)
      requires Valid()
      modifies this`pending, this`armed, this`nextHandle
      ensures Valid()
      ensures h !in old(armed)
      ensures pending == old(pending)[job.doc.uri := h]
      ensures job.doc.uri in old(pending) ==> old(pending)[job.doc.uri] !in armed
      ensures armed == (if job.doc.uri in old(pending)
                        then old(armed) - {old(pending)[job.doc.uri]}
                        else old(armed))[h := job]
      ensures forall h' | h' in armed && armed[h'].doc.uri == job.doc.uri :: h' == h
    {
      CleanPendingValidation(job.doc.uri);
      h := nextHandle;
      nextHandle := nextHandle + 1;
      armed := armed[h := job];
      pending := pending[job.doc.uri := h];
    }

    /** `doValidate` for a snapshot: empty text clears the collection with no parse,
        a failed parse returns with the collection untouched, and a successful parse
        publishes the markers' diagnostics under the job's target. */
    method DoValidate(job: Job, parser: ParseRequest -> ParseResult, positionAt: PositionAt)
      modifies this`collection, this`parseLog
      ensures Validated(old(collection), collection, old(parseLog), parseLog, job, parser, positionAt)
    {
      var text := job.doc.text;
      if |text| == 0 {
        collection := map[];
        return;
      }
      var request := ParseRequest(text, job.axiom);
      var result := parser(request);
      parseLog := parseLog + [request];
      if result.ParseFailed? {
        return;
      }
      var diagnostics := CollectDiagnostics(text, positionAt, result.markers);
      collection := collection[job.target := diagnostics];
    }

    /** The timer callback: the host consumes the fired timer, the callback removes the
        registry entry and only then runs `doValidate`, so the registry never refers to
        a timer that has fired. */
    method Fire(h: Handle, parser: ParseRequest -> ParseResult, positionAt: PositionAt)
      requires Valid() && h in armed
      modifies this`pending, this`armed, this`collection, this`parseLog
      ensures Valid()
      ensures armed == old(armed) - {h}
      ensures pending == old(pending) - {old(armed)[h].doc.uri}
      ensures h !in pending.Values
      ensures Validated(old(collection), collection, old(parseLog), parseLog, old(armed)[h], parser, positionAt)
    {
      var job := armed[h];
      armed := armed - {h};
      pending := pending - {job.doc.uri};
      DoValidate(job, parser, positionAt);
    }
  }

  /** The registry invariant seen from outside: two armed timers for one URI are the
      same timer, and it is the one the registry holds. */
  lemma OneTimerPerUri(v: Validator, h1: Handle, h2: Handle)
    requires v.Valid()
    requires h1 in v.armed && h2 in v.armed && v.armed[h1].doc.uri == v.armed[h2].doc.uri
    ensures h1 == h2
    ensures v.armed[h1].doc.uri in v.pending && v.pending[v.armed[h1].doc.uri] == h1
  {
  }

  /** Two edits in a row and the one timer left firing: the parser sees only the text
      captured by the later edit, and no timer for the document remains. */
  method RapidEdits(v: Validator, first: Job, second: Job, parser: ParseRequest -> ParseResult, positionAt: PositionAt)
    requires v.Valid()
    requires first.doc.uri == second.doc.uri && second.doc.text != ""
    modifies v
    ensures v.Valid()
    ensures v.parseLog == old(v.parseLog) + [ParseRequest(second.doc.text, second.axiom)]
    ensures forall h | h in v.armed :: v.armed[h].doc.uri != first.doc.uri
    ensures first.doc.uri !in v.pending
  {
    var h1 := v.Schedule(first);
    var h2 := v.Schedule(second);
    assert h1 !in v.armed;
    v.Fire(h2, parser, positionAt);
  }
}
