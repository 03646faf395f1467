/**
 * The slice of the gRPC runtime the mock service plugs into: per-call
 * context, unary handlers, interceptors and request decoders. The registry
 * and the protobuf decoder that a handler reaches as process-wide globals are
 * carried by the call's Context.
 */
module Grpc {
  import opened Wrappers
  import opened Descriptors
  import opened TypeRegistry

  /** Incoming metadata: lower-case keys to their values, in arrival order. */
  type Metadata = map<string, seq<string>>

  /** metadata.MD.Get: the values under a key, none when the key is absent. */
  function Get(md: Metadata, key: string): seq<string> {
    if key in md then md[key] else []
  }

  /** anypb's UnmarshalTo: decodes an Any into a message of the given type, or fails. */
  type Unmarshaller = (MessageDesc, Any) -> Result<Message, Error>

  /** What a call sees: its incoming metadata (if any), the registries, the decoder. */
  datatype Context = Context(incoming: Option<Metadata>, registry: RegistryState, unmarshal: Unmarshaller)

  type Reply = Result<Message, Error>

  /** grpc.UnaryHandler */
  type UnaryHandler = (Context, Message) -> Reply

  datatype UnaryServerInfo = UnaryServerInfo(fullMethod: string)

  /** grpc.UnaryServerInterceptor: gets the request, the call's info and the handler to run. */
  type UnaryServerInterceptor = (Context, Message, UnaryServerInfo, UnaryHandler) -> Reply

  /** The `dec` the server passes to a method handler: decodes the request into a message of the given type. */
  type Decoder = MessageDesc -> Result<Message, Error>
}
