/**
 * The values the mock runtime works on: descriptors as they come out of a
 * descriptor set, the grpcmock example rules attached to methods, opaque
 * protobuf messages, and the errors the runtime can return.
 *
 * Wire formats are not modelled: a message's content and an Any's value are
 * plain bytes that only the (opaque) decoder interprets.
 */
module Descriptors {
  import opened Wrappers

  newtype int32 = x: int | -0x8000_0000 <= x < 0x8000_0000
  newtype uint32 = x: int | 0 <= x < 0x1_0000_0000
  type byte = bv8

  /** A gRPC status code (codes.Code is a uint32). */
  type Code = uint32

  const OK: Code := 0
  const Unimplemented: Code := 12
  const Internal: Code := 13

  /** A message type, identified by its fully-qualified name. */
  datatype MessageDesc = MessageDesc(fullName: string)

  /** A message value of some type; its content is opaque to the model. */
  datatype Message = Message(desc: MessageDesc, content: seq<byte>)

  /** google.protobuf.Any: a type URL and the encoded bytes of one message. */
  datatype Any = Any(typeUrl: string, value: seq<byte>)

  /** The failure half of an example: code, message and typed details, in order. */
  datatype StatusRule = StatusRule(code: int32, message: string, details: seq<Any>)

  /**
   * One grpcmock.ExampleRule. The handler looks at the status first and the
   * body second, so both are kept as independent optional parts.
   */
  datatype ExampleRule = ExampleRule(name: string, status: Option<StatusRule>, body: Option<Any>)

  /** What reading the example extension off a method's options gives. */
  datatype ExampleOption =
    | Missing                    // the extension is not set on the method
    | Unreadable(reason: string) // reading the extension failed
    | Present(rules: seq<ExampleRule>)

  /** A method of a service: input and output are fully-qualified type names. */
  datatype MethodProto = MethodProto(name: string, inputType: string, outputType: string, example: ExampleOption)

  datatype ServiceProto = ServiceProto(fullName: string, methods: seq<MethodProto>)

  /** A file of a descriptor set: its path, its imports, its top-level messages and services. */
  datatype FileProto = FileProto(name: string, dependencies: seq<string>, messages: seq<MessageDesc>, services: seq<ServiceProto>)

  datatype Error =
    | StatusError(code: Code, message: string, details: seq<Message>) // a gRPC status error
    | Wrapped(cause: Error)             // errors.Wrap: same cause, caller location added
    | UnknownExample                    // errors.New("unknown example")
    | NotFound(name: string)            // protoregistry.NotFound
    | MissingDependency(path: string)   // an import that is not registered yet
    | NameConflict(name: string)        // a path or a name that is registered already
    | DecodeFailure(reason: string)     // malformed bytes
    | DetailsOnOkStatus                 // status.WithDetails on a status with code OK
    | ExtensionFailure(reason: string)  // the example extension could not be read
}
