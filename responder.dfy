/**
 * The handler every mock method is registered with: it picks an example for
 * the call and turns it into a reply. A status example becomes a status error
 * carrying its details in order; a body example becomes the decoded body;
 * an example with neither is refused. The request itself is never looked at.
 */
module Responder {
  import opened Wrappers
  import opened Descriptors
  import opened TypeRegistry
  import opened Grpc
  import opened ExampleResolver

  const TypeUrlPrefix := "type.googleapis.com/"

  const InvalidExample := StatusError(Internal, "invalid example", [])

  /** strings.TrimPrefix */
  function TrimPrefix(s: string, prefix: string): (r: string)
    ensures prefix <= s ==> prefix + r == s
    ensures !(prefix <= s) ==> r == s
  {
    if prefix <= s then s[|prefix|..] else s
  }

  /** A type URL of the standard form gives back the type name it was built from. */
  lemma TypeUrlRoundTrip(typeName: string)
    ensures TrimPrefix(TypeUrlPrefix + typeName, TypeUrlPrefix) == typeName
  {
    var r := TrimPrefix(TypeUrlPrefix + typeName, TypeUrlPrefix);
    assert TypeUrlPrefix + r == TypeUrlPrefix + typeName;
    assert r == (TypeUrlPrefix + r)[|TypeUrlPrefix|..];
  }

  /** codes.Code(c) for an int32 c: the same 32 bits read as unsigned. */
  function ToCode(c: int32): (code: Code)
    ensures (code as int - c as int) % 0x1_0000_0000 == 0
    ensures c >= 0 ==> code as int == c as int
  {
    if c < 0 then (c as int + 0x1_0000_0000) as Code else c as int as Code
  }

  /** The type name a detail is resolved by. */
  function DetailTypeName(d: Any): string {
    TrimPrefix(d.typeUrl, TypeUrlPrefix)
  }

  /** One status detail: look its type up in the file registry, then decode it as that type. */
  function ResolveDetail(ctx: Context, d: Any): (r: Result<Message, Error>)
    ensures DetailTypeName(d) !in ctx.registry.descriptors ==> r == Err(Wrapped(NotFound(DetailTypeName(d))))
    ensures DetailTypeName(d) in ctx.registry.descriptors ==>
      var decoded := ctx.unmarshal(ctx.registry.descriptors[DetailTypeName(d)], d);
      r == if decoded.Ok? then Ok(decoded.value) else Err(Wrapped(decoded.error))
  {
    match FindDescriptorByName(ctx.registry, DetailTypeName(d))
    case Err(e) => Err(Wrapped(e))
    case Ok(desc) =>
      match ctx.unmarshal(desc, d)
      case Err(e) => Err(Wrapped(e))
      case Ok(m) => Ok(m)
  }

  /** All details of a status, in order; the first one that fails decides the error. */
  function ResolveDetails(ctx: Context, ds: seq<Any>): (r: Result<seq<Message>, Error>)
    ensures r.Ok? <==> forall i :: 0 <= i < |ds| ==> ResolveDetail(ctx, ds[i]).Ok?
    ensures r.Ok? ==> |r.value| == |ds| && forall i :: 0 <= i < |ds| ==> r.value[i] == ResolveDetail(ctx, ds[i]).value
    ensures r.Err? ==>
      exists k :: 0 <= k < |ds| && ResolveDetail(ctx, ds[k]) == Err(r.error)
        && forall i :: 0 <= i < k ==> ResolveDetail(ctx, ds[i]).Ok?
    decreases |ds|
  {
    if ds == [] then Ok([])
    else
      var init := ds[..|ds| - 1];
      assert forall i :: 0 <= i < |init| ==> init[i] == ds[i];
      match ResolveDetails(ctx, init)
      case Err(e) => Err(e)
      case Ok(ms) =>
        match ResolveDetail(ctx, ds[|ds| - 1])
        case Err(e) => Err(e)
        case Ok(m) => Ok(ms + [m])
  }

  /** The reply an example gives, once chosen: status first, then body, else invalid. */
  function Synthesize(example: ExampleRule, res: MessageDesc, ctx: Context): (r: Reply)
    ensures example.status.Some? ==> r.Err?
    ensures r.Ok? ==> BodyAnswer(example, res, ctx) == Some(r)
    ensures r.Err? && r.error.StatusError? ==>
      || (example.status.Some? && r.error.code == ToCode(example.status.value.code) && r.error.code != OK
          && r.error.message == example.status.value.message)
      || (example.status.None? && example.body.None? && r.error == InvalidExample)
  {
    if example.status.Some? then
      var st := example.status.value;
      match ResolveDetails(ctx, st.details)
      case Err(e) => Err(e)
      case Ok(details) =>
        if ToCode(st.code) == OK then Err(Wrapped(DetailsOnOkStatus))
        else Err(StatusError(ToCode(st.code), st.message, details))
    else if example.body.Some? then
      match ctx.unmarshal(res, example.body.value)
      case Err(e) => Err(Wrapped(e))
      case Ok(m) => Ok(m)
    else Err(InvalidExample)
  }

  /** What a body-only example answers with: the body decoded as the response type. */
  function BodyAnswer(example: ExampleRule, res: MessageDesc, ctx: Context): Option<Reply> {
    if example.status.None? && example.body.Some? then Some(ctx.unmarshal(res, example.body.value)) else None
  }

  /** The reply to one call of a method with these examples (None: the extension was missing). */
  function Respond(examples: Option<seq<ExampleRule>>, res: MessageDesc, ctx: Context): (r: Reply)
    ensures examples.None? ==> r == Err(NoExamples)
    ensures examples.Some? && |examples.value| == 0 ==> r == Err(Wrapped(NoExamples))
    ensures r.Ok? ==>
      && examples.Some?
      && exists i :: 0 <= i < |examples.value| && BodyAnswer(examples.value[i], res, ctx) == Some(r)
  {
    if examples.None? then Err(NoExamples)
    else match FindExample(examples.value, ctx.incoming)
      case Err(e) => Err(Wrapped(e))
      case Ok(example) => Synthesize(example, res, ctx)
  }

  /** The handler's body, step by step as it runs. */
  method Handle(examples: Option<seq<ExampleRule>>, res: MessageDesc, ctx: Context) returns (r: Reply)
    ensures r == Respond(examples, res, ctx)
  {
    if examples.None? {
      return Err(NoExamples);
    }
    var found := FindExample(examples.value, ctx.incoming);
    if found.Err? {
      return Err(Wrapped(found.error));
    }
    var example := found.value;
    if example.status.Some? {
      var st := example.status.value;
      var details := HandleDetails(ctx, st.details);
      if details.Err? {
        return Err(details.error);
      }
      var code := ToCode(st.code);
      if code == OK {
        return Err(Wrapped(DetailsOnOkStatus));
      }
      return Err(StatusError(code, st.message, details.value));
    }
    if example.body.Some? {
      var m := ctx.unmarshal(res, example.body.value);
      if m.Err? {
        return Err(Wrapped(m.error));
      }
      return Ok(m.value);
    }
    return Err(InvalidExample);
  }

  /** The handler's loop over a status's details: each is looked up and decoded, and the first failure ends the call. */
  method HandleDetails(ctx: Context, ds: seq<Any>) returns (r: Result<seq<Message>, Error>)
    ensures r == ResolveDetails(ctx, ds)
  {
    var details: seq<Message> := [];
    var i := 0;
    while i < |ds|
      invariant 0 <= i <= |ds|
      invariant ResolveDetails(ctx, ds[..i]) == Ok(details)
    {
      var d := ds[i];
      var desc := FindDescriptorByName(ctx.registry, TrimPrefix(d.typeUrl, TypeUrlPrefix));
      if desc.Err? {
        DetailFailureIsFinal(ctx, ds, i);
        return Err(Wrapped(desc.error));
      }
      var m := ctx.unmarshal(desc.value, d);
      if m.Err? {
        DetailFailureIsFinal(ctx, ds, i);
        return Err(Wrapped(m.error));
      }
      assert ds[..i + 1][..i] == ds[..i];
      details := details + [m.value];
      i := i + 1;
    }
    assert ds[..i] == ds;
    return Ok(details);
  }

  /** When the details before position i resolve and the one at i does not, its error is the error of them all. */
  lemma DetailFailureIsFinal(ctx: Context, ds: seq<Any>, i: nat)
    requires i < |ds|
    requires ResolveDetails(ctx, ds[..i]).Ok?
    requires ResolveDetail(ctx, ds[i]).Err?
    ensures ResolveDetails(ctx, ds) == Err(ResolveDetail(ctx, ds[i]).error)
  {
    assert forall j :: 0 <= j < i ==> ds[..i][j] == ds[j];
    var r := ResolveDetails(ctx, ds);
    var k :| 0 <= k < |ds| && ResolveDetail(ctx, ds[k]) == Err(r.error)
      && forall j :: 0 <= j < k ==> ResolveDetail(ctx, ds[j]).Ok?;
    assert k == i;
  }

  /**
   * Without examples every call is Unimplemented: straight away when the
   * extension was missing, and through the example search (whose error the
   * handler wraps) when the list is empty.
   */
  lemma NoExamplesAnswer(res: MessageDesc, ctx: Context)
    ensures Respond(None, res, ctx) == Err(StatusError(12, "no examples found", []))
    ensures Respond(Some([]), res, ctx) == Err(Wrapped(StatusError(12, "no examples found", [])))
  {
  }

  /** A call answered by an example that has a status never succeeds, and its body is never looked at. */
  lemma StatusTakesPrecedence(example: ExampleRule, res: MessageDesc, ctx: Context, body: Option<Any>)
    requires example.status.Some?
    ensures Synthesize(example, res, ctx).Err?
    ensures Synthesize(example, res, ctx) == Synthesize(example.(body := body), res, ctx)
  {
  }

  /**
   * When every detail resolves, the error carries the rule's code (as a
   * uint32) and message verbatim and exactly the decoded details, in order.
   * A code of 0 cannot carry details and is refused.
   */
  lemma StatusBecomesError(example: ExampleRule, res: MessageDesc, ctx: Context)
    requires example.status.Some?
    requires forall i :: 0 <= i < |example.status.value.details| ==> ResolveDetail(ctx, example.status.value.details[i]).Ok?
    ensures var st := example.status.value;
      var r := Synthesize(example, res, ctx);
      && (ToCode(st.code) == OK ==> r == Err(Wrapped(DetailsOnOkStatus)))
      && (ToCode(st.code) != OK ==>
            && r.Err? && r.error.StatusError? && r.error.code == ToCode(st.code) && r.error.message == st.message
            && |r.error.details| == |st.details|
            && forall i :: 0 <= i < |st.details| ==> r.error.details[i] == ResolveDetail(ctx, st.details[i]).value)
  {
  }

  /** The first detail that cannot be resolved or decoded aborts the reply with its own error; no partial status is built. */
  lemma DetailFailureAborts(example: ExampleRule, res: MessageDesc, ctx: Context, k: nat)
    requires example.status.Some? && k < |example.status.value.details|
    requires forall i :: 0 <= i < k ==> ResolveDetail(ctx, example.status.value.details[i]).Ok?
    requires ResolveDetail(ctx, example.status.value.details[k]).Err?
    ensures Synthesize(example, res, ctx) == Err(ResolveDetail(ctx, example.status.value.details[k]).error)
    ensures !Synthesize(example, res, ctx).error.StatusError?
  {
    var ds := example.status.value.details;
    assert forall j :: 0 <= j < k ==> ds[..k][j] == ds[j];
    DetailFailureIsFinal(ctx, ds, k);
  }

  /** A body-only example answers with the body decoded as the method's response type, or with the decoder's error. */
  lemma BodyOnly(example: ExampleRule, res: MessageDesc, ctx: Context)
    requires example.status.None? && example.body.Some?
    ensures ctx.unmarshal(res, example.body.value).Ok? ==>
      Synthesize(example, res, ctx) == Ok(ctx.unmarshal(res, example.body.value).value)
    ensures ctx.unmarshal(res, example.body.value).Err? ==>
      Synthesize(example, res, ctx) == Err(Wrapped(ctx.unmarshal(res, example.body.value).error))
  {
  }

  /** An example with neither status nor body is answered with Internal "invalid example". */
  lemma NeitherIsInvalid(example: ExampleRule, res: MessageDesc, ctx: Context)
    requires example.status.None? && example.body.None?
    ensures Synthesize(example, res, ctx) == Err(StatusError(13, "invalid example", []))
  {
  }

  /**
   * A status {5, "not found", [one detail typed type.googleapis.com/T]} with T
   * registered comes back as code 5, "not found" and the one decoded detail.
   */
  lemma StatusRoundTrip(ctx: Context, res: MessageDesc, typeName: string, bytes: seq<byte>, name: string)
    requires typeName in ctx.registry.descriptors
    requires ctx.unmarshal(ctx.registry.descriptors[typeName], Any(TypeUrlPrefix + typeName, bytes)).Ok?
    ensures var detail := Any(TypeUrlPrefix + typeName, bytes);
      var example := ExampleRule(name, Some(StatusRule(5, "not found", [detail])), None);
      Synthesize(example, res, ctx)
        == Err(StatusError(5, "not found", [ctx.unmarshal(ctx.registry.descriptors[typeName], detail).value]))
  {
    TypeUrlRoundTrip(typeName);
    var detail := Any(TypeUrlPrefix + typeName, bytes);
    var m := ctx.unmarshal(ctx.registry.descriptors[typeName], detail).value;
    assert ResolveDetail(ctx, detail) == Ok(m);
    var r := ResolveDetails(ctx, [detail]);
    assert r.Ok? && r.value == [m];
  }

  /** With a list of examples, the call is answered by the example the selector chooses. */
  lemma AnsweredBySelectedExample(examples: seq<ExampleRule>, res: MessageDesc, ctx: Context)
    requires |examples| > 0
    ensures Selector(ctx.incoming).None? ==> Respond(Some(examples), res, ctx) == Synthesize(examples[0], res, ctx)
    ensures Selector(ctx.incoming).Some? ==>
      var name := Selector(ctx.incoming).value;
      match IndexOfName(examples, name)
      case Some(i) => Respond(Some(examples), res, ctx) == Synthesize(examples[i], res, ctx)
      case None => Respond(Some(examples), res, ctx) == Err(Wrapped(UnknownExample))
  {
  }
}
