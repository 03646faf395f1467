/**
 * Choosing the example that answers a call: the first example, unless the
 * call's metadata names one under the x-grpcmock-example key.
 */
module ExampleResolver {
  import opened Wrappers
  import opened Descriptors
  import opened Grpc

  const ExampleKey := "x-grpcmock-example"

  const NoExamples := StatusError(Unimplemented, "no examples found", [])

  /** The example name a call asks for: the first value under the key, if any. */
  function Selector(incoming: Option<Metadata>): (r: Option<string>)
    ensures r.Some? <==> incoming.Some? && ExampleKey in incoming.value && |incoming.value[ExampleKey]| > 0
    ensures r.Some? ==> r.value == incoming.value[ExampleKey][0]
  {
    if incoming.Some? && |Get(incoming.value, ExampleKey)| > 0 then Some(Get(incoming.value, ExampleKey)[0])
    else None
  }

  /** The position of the first example called `name`. */
  function IndexOfName(examples: seq<ExampleRule>, name: string): (r: Option<nat>)
    ensures r.Some? ==>
      && r.value < |examples| && examples[r.value].name == name
      && forall j :: 0 <= j < r.value ==> examples[j].name != name
    ensures r.None? ==> forall j :: 0 <= j < |examples| ==> examples[j].name != name
  {
    if examples == [] then None
    else if examples[0].name == name then Some(0)
    else match IndexOfName(examples[1..], name)
      case None => None
      case Some(k) => Some(k + 1)
  }

  function FindExample(examples: seq<ExampleRule>, incoming: Option<Metadata>): (r: Result<ExampleRule, Error>)
    ensures |examples| == 0 ==> r == Err(NoExamples)
    ensures |examples| > 0 && Selector(incoming).None? ==> r == Ok(examples[0])
    ensures |examples| > 0 && Selector(incoming).Some? ==>
      var name := Selector(incoming).value;
      && (r.Ok? <==> exists i :: 0 <= i < |examples| && examples[i].name == name)
      && (r.Ok? ==> exists i :: 0 <= i < |examples| && r.value == examples[i] && examples[i].name == name
                      && forall j :: 0 <= j < i ==> examples[j].name != name)
      && (r.Err? ==> r.error == UnknownExample)
  {
    if |examples| == 0 then Err(NoExamples)
    else match Selector(incoming)
      case None => Ok(examples[0])
      case Some(name) =>
        match IndexOfName(examples, name)
        case Some(i) => Ok(examples[i])
        case None => Err(UnknownExample)
  }

  /** Whatever the metadata, an empty example list is answered with Unimplemented. */
  lemma NoExamplesWhateverSelector(incoming: Option<Metadata>)
    ensures FindExample([], incoming) == Err(StatusError(12, "no examples found", []))
  {
  }

  /** Of [a, b, c], a call without a selector gets a; one asking for b's name gets the first example so named. */
  lemma DefaultAndNamedSelection(a: ExampleRule, b: ExampleRule, c: ExampleRule, md: Metadata)
    requires a.name != b.name
    requires ExampleKey in md && |md[ExampleKey]| > 0 && md[ExampleKey][0] == b.name
    ensures FindExample([a, b, c], None) == Ok(a)
    ensures FindExample([a, b, c], Some(map[])) == Ok(a)
    ensures FindExample([a, b, c], Some(md)) == Ok(b)
  {
    assert IndexOfName([a, b, c], b.name) == Some(1);
  }

  /** Only the first selector value counts: a name no example has fails, even if a later value would match. */
  lemma UnknownSelectorFails(examples: seq<ExampleRule>, name: string, later: seq<string>)
    requires |examples| > 0
    requires forall i :: 0 <= i < |examples| ==> examples[i].name != name
    ensures FindExample(examples, Some(map[ExampleKey := [name] + later])) == Err(UnknownExample)
  {
  }
}
