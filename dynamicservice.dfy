/**
 * A service assembled at run time: an append-only list of unary methods that
 * is turned into the service descriptor the gRPC server dispatches through.
 */
module DynamicServices {
  import opened Wrappers
  import opened Descriptors
  import opened Grpc

  /** One registered method: its name, its handler and its request and response types. */
  datatype UnaryMethod = UnaryMethod(name: string, handler: UnaryHandler, req: MessageDesc, res: MessageDesc)

  /** The value of a DynamicService at one moment. */
  datatype ServiceValue = ServiceValue(name: string, fileName: string, methods: seq<UnaryMethod>)

  /** grpc.MethodDesc's handler: gets the call, the request decoder and the interceptor, if any. */
  type MethodHandler = (Context, Decoder, Option<UnaryServerInterceptor>) -> Reply

  datatype MethodDesc = MethodDesc(methodName: string, handler: MethodHandler)

  datatype ServiceDesc = ServiceDesc(serviceName: string, methods: seq<MethodDesc>, metadata: string)

  class DynamicService {
    const name: string
    const fileName: string
    var methods: seq<UnaryMethod>

    function Value(): ServiceValue
      reads this
    {
      ServiceValue(name, fileName, methods)
    }

    constructor (name: string, fileName: string)
      ensures Value() == ServiceValue(name, fileName, [])
    {
      this.name := name;
      this.fileName := fileName;
      methods := [];
    }

    /** Appends one method at the end; the earlier ones stay as they were. */
    method RegisterUnaryMethod(name: string, req: MessageDesc, res: MessageDesc, h: UnaryHandler)
      modifies this
      ensures methods == old(methods) + [UnaryMethod(name, h, req, res)]
    {
      methods := methods + [UnaryMethod(name, h, req, res)];
    }

    /** One descriptor entry per registered method, in registration order. */
    method CreateServiceDesc() returns (sd: ServiceDesc)
      ensures sd.serviceName == name && sd.metadata == fileName
      ensures |sd.methods| == |methods|
      ensures forall i :: 0 <= i < |methods| ==> sd.methods[i].methodName == methods[i].name
      ensures forall i :: 0 <= i < |methods| ==>
        sd.methods[i] == CreateMethodDesc(FullMethod(name, methods[i].name), methods[i])
    {
      sd := ServiceDesc(name, [], fileName);
      var i := 0;
      while i < |methods|
        invariant 0 <= i <= |methods|
        invariant sd.serviceName == name && sd.metadata == fileName
        invariant |sd.methods| == i
        invariant forall j :: 0 <= j < i ==>
          sd.methods[j] == CreateMethodDesc(FullMethod(name, methods[j].name), methods[j])
      {
        sd := sd.(methods := sd.methods + [CreateMethodDesc(FullMethod(name, methods[i].name), methods[i])]);
        i := i + 1;
      }
    }
  }

  /** The method's `:path`: "/" service "/" method. */
  function FullMethod(serviceName: string, methodName: string): (path: string)
    ensures |path| == |serviceName| + |methodName| + 2
    ensures path[0] == '/' && path[|serviceName| + 1] == '/'
    ensures path[1..|serviceName| + 1] == serviceName && path[|serviceName| + 2..] == methodName
  {
    "/" + serviceName + "/" + methodName
  }

  /** The index of the first `c` in `s`, if there is one. */
  function IndexOf(s: string, c: char): (r: Option<nat>)
    ensures r.None? <==> c !in s
    ensures r.Some? ==> r.value < |s| && s[r.value] == c && c !in s[..r.value]
  {
    if s == [] then None
    else if s[0] == c then Some(0)
    else match IndexOf(s[1..], c)
      case None => None
      case Some(k) => assert s[..k + 1] == [s[0]] + s[1..][..k]; Some(k + 1)
  }

  /** Splits a `:path` into service and method at the first '/' after the leading one. */
  function ParseFullMethod(path: string): Option<(string, string)> {
    if |path| == 0 || path[0] != '/' then None
    else match IndexOf(path[1..], '/')
      case None => None
      case Some(k) => Some((path[1..k + 1], path[k + 2..]))
  }

  /** A service name without '/' is read back from the path, and so is the method name. */
  lemma FullMethodRoundTrip(serviceName: string, methodName: string)
    requires '/' !in serviceName
    ensures ParseFullMethod(FullMethod(serviceName, methodName)) == Some((serviceName, methodName))
  {
    var path := FullMethod(serviceName, methodName);
    var rest := path[1..];
    assert rest[..|serviceName|] == serviceName;
    assert rest[|serviceName|] == '/';
    var k := IndexOf(rest, '/');
    assert k.Some?;
    assert k.value == |serviceName|;
  }

  /** Every path that parses is the full method of what it parses to. */
  lemma ParseFullMethodSound(path: string, serviceName: string, methodName: string)
    requires ParseFullMethod(path) == Some((serviceName, methodName))
    ensures '/' !in serviceName
    ensures FullMethod(serviceName, methodName) == path
  {
    var k := IndexOf(path[1..], '/').value;
    assert serviceName == path[1..][..k];
    assert path == [path[0]] + path[1..k + 1] + [path[k + 1]] + path[k + 2..];
  }

  /**
   * The method descriptor: the request is decoded into the method's request
   * type, then the handler runs, directly or through the interceptor.
   */
  function CreateMethodDesc(fullMethod: string, m: UnaryMethod): (d: MethodDesc)
    ensures d.methodName == m.name
  {
    MethodDesc(m.name, MethodHandlerOf(fullMethod, m))
  }

  function MethodHandlerOf(fullMethod: string, m: UnaryMethod): (h: MethodHandler)
    ensures forall ctx: Context, dec: Decoder, ic: Option<UnaryServerInterceptor> ::
      dec(m.req).Err? ==> h(ctx, dec, ic) == Err(dec(m.req).error)
    ensures forall ctx: Context, dec: Decoder ::
      dec(m.req).Ok? ==> h(ctx, dec, None) == m.handler(ctx, dec(m.req).value)
    ensures forall ctx: Context, dec: Decoder, ic: UnaryServerInterceptor ::
      dec(m.req).Ok? ==> h(ctx, dec, Some(ic)) == ic(ctx, dec(m.req).value, UnaryServerInfo(fullMethod), m.handler)
  {
    (ctx: Context, dec: Decoder, interceptor: Option<UnaryServerInterceptor>) =>
      match dec(m.req)
      case Err(e) => Err(e)
      case Ok(req) =>
        if interceptor.None? then m.handler(ctx, req)
        else interceptor.value(ctx, req, UnaryServerInfo(fullMethod), m.handler)
  }

  /**
   * A request that fails to decode is answered with the decoder's error as it
   * is; neither the handler nor the interceptor has any say in the reply.
   */
  lemma DecodeFailureSkipsHandler(fullMethod: string, m: UnaryMethod, h: UnaryHandler, ctx: Context, dec: Decoder,
                                  interceptor: Option<UnaryServerInterceptor>, other: Option<UnaryServerInterceptor>)
    requires dec(m.req).Err?
    ensures CreateMethodDesc(fullMethod, m).handler(ctx, dec, interceptor) == Err(dec(m.req).error)
    ensures CreateMethodDesc(fullMethod, m).handler(ctx, dec, interceptor)
         == CreateMethodDesc(fullMethod, m.(handler := h)).handler(ctx, dec, other)
  {
  }

  /** Without an interceptor the reply is the handler's, on the decoded request. */
  lemma DirectDispatch(serviceName: string, m: UnaryMethod, ctx: Context, dec: Decoder)
    requires dec(m.req).Ok?
    ensures CreateMethodDesc(FullMethod(serviceName, m.name), m).handler(ctx, dec, None)
         == m.handler(ctx, dec(m.req).value)
  {
  }

  /**
   * With an interceptor, it is called once, with the decoded request, the
   * original handler, and a FullMethod that reads back as this service and method.
   */
  lemma InterceptedDispatch(serviceName: string, m: UnaryMethod, ctx: Context, dec: Decoder,
                            interceptor: UnaryServerInterceptor)
    requires dec(m.req).Ok?
    requires '/' !in serviceName
    ensures var info := UnaryServerInfo(FullMethod(serviceName, m.name));
      && CreateMethodDesc(FullMethod(serviceName, m.name), m).handler(ctx, dec, Some(interceptor))
         == interceptor(ctx, dec(m.req).value, info, m.handler)
      && ParseFullMethod(info.fullMethod) == Some((serviceName, m.name))
  {
    FullMethodRoundTrip(serviceName, m.name);
  }
}
