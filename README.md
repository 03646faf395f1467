# grpcmock, modelled in Dafny

grpcmock is a mock gRPC server driven by protobuf descriptors. It reads a
`FileDescriptorSet`. It registers each file, and each file's top-level
message types, in the process-wide protobuf registries. For each service a
file declares, it appends a dynamic service to its own list of services.
Each unary method of such a service gets its own handler closure, built
over that method's examples and response type. The handler answers a call
from the `ExampleRule`s attached to the method as an option extension:

- the example is the first one in the list, or the one the call names in
  its `x-grpcmock-example` metadata;
- an example with a `status` becomes an RPC error, with details decoded from
  `Any` values;
- otherwise an example's `body` is decoded as the response;
- an example with neither is invalid.

This project models that core.

- `Descriptors`, `TypeRegistry`, `Grpc`: the data the core works on.
  - Descriptors hold only what the core reads: names, imports, message
    declarations, services, methods, and each method's example option.
  - The global file and type registries become one `RegistryState`. The
    in-place `Registry` class is proved against it.
  - The gRPC context becomes a `Context` value. It carries the incoming
    metadata, a snapshot of the registries, and the `Any` decoder.
- `ExampleResolver`: `findExample`.
- `Responder`: the handler closure created in `registerServiceMethod`.
  - It is a function `Respond` of the examples, the response type and the
    call's context.
  - It is also an imperative `Handle`, proved equal to `Respond`.
- `DynamicServices`: `internal/dynamicservice.go`.
  - The service is a class with an append-only method list.
  - Its `grpc.ServiceDesc` is built by a loop.
  - Method handlers decode, then dispatch directly or through an
    interceptor.
- `Sequencing`: `RunAll`, the shape of the file, service and method loops. It
  visits items in order and returns at the first error, keeping what the
  earlier steps did. The message loop is `MessagesRegistered` instead: a
  message whose name is taken is skipped, so its step has no error left to
  stop on.
- `Loader`: the `GrpcMock` class, proved against pure functions.
  - Its methods are `LoadProtoDescriptorFile`, `loadFile`, `registerMessage`,
    `registerService` and `registerServiceMethod`.
  - The pure functions describe one load: `LoadFileOutcome` and `LoadOutcome`.
- `LoadProperties`: what a load leaves behind.
  - A loaded file mirrors its declarations.
  - Failures keep earlier work.
  - Loading a file, or a whole descriptor set, twice duplicates its services
    and changes nothing else.
  - A file must follow its imports.

The model follows the code where the behaviour described for the program
differs from it:

- A request that fails to decode is answered with the decoder's error as it
  is (internal/dynamicservice.go:58-60). It is not turned into an
  InvalidArgument status.
- A status detail that cannot be resolved or decoded aborts the call with the
  underlying error, wrapped (grpcmock.go:187-193). It is not an Internal
  status.
- The response message `res` is created once per method, at registration,
  and every call decodes into it (grpcmock.go:162, 204). It is not allocated
  per call. The model passes the response type; the reply is the decoded
  message.
- An example whose status code is 0 cannot carry details, even an empty
  list. `WithDetails` refuses it, and the handler returns that error,
  wrapped (grpcmock.go:196-199).

## Model

| member | source | states |
|---|---|---|
| ExampleResolver.IndexOfName | grpcmock.go:225-229 | the position found is the first example with that name; none means no example has it |
| ExampleResolver.Selector | grpcmock.go:220-224 | a selector is found exactly when there is metadata, it holds the key and the key has at least one value; the selector is then the first value |
| ExampleResolver.FindExample | grpcmock.go:216-234 | an empty list is Unimplemented "no examples found"; without a selector the first example is chosen; with one, the result is the first example so named, and it fails with "unknown example" exactly when none has the name |
| ExampleResolver.NoExamplesWhateverSelector | grpcmock.go:217-219 | an empty list gives code 12 "no examples found" whatever the metadata |
| ExampleResolver.DefaultAndNamedSelection | grpcmock.go:220-233 | no metadata, or metadata without the key, picks the first example; a selector naming the second example picks it |
| ExampleResolver.UnknownSelectorFails | grpcmock.go:222-230 | only the first value under the key counts; a name no example has fails with "unknown example" |
| Responder.TrimPrefix | grpcmock.go:186 | the prefix is removed when present, otherwise the string is unchanged |
| Responder.TypeUrlRoundTrip | grpcmock.go:185-186 | trimming `type.googleapis.com/` from a type URL built on a name gives the name back |
| Responder.ToCode | grpcmock.go:196 | the int32 code becomes a uint32 code: congruent modulo 2^32, and unchanged when non-negative |
| Responder.ResolveDetail | grpcmock.go:184-194 | a detail whose type is not registered fails with the wrapped NotFound; otherwise it is decoded into its registered type, and a decoding error is wrapped |
| Responder.ResolveDetails | grpcmock.go:183-195 | the details resolve exactly when each one does, giving the decoded details in order; otherwise the error is that of the first failing detail |
| Responder.Handle | grpcmock.go:172-211 | the handler, step by step, equals `Respond` |
| Responder.HandleDetails | grpcmock.go:183-195 | the handler's detail loop returns what `ResolveDetails` says: every detail decoded in order, or the first failure's error |
| Responder.Synthesize | grpcmock.go:182-210 | an example with a status always gives an error; a success is the example's body decoded as the response type; a status error carries the rule's code, which is not OK, and its message, unless the example has neither status nor body and the error is "invalid example" |
| Responder.Respond | grpcmock.go:172-181 | a missing extension answers Unimplemented "no examples found" and an empty list the same error wrapped; a successful reply is the decoded body of one of the examples |
| Responder.DetailFailureIsFinal | grpcmock.go:184-193 | once a detail fails after the earlier ones resolved, its error is the error of the whole list |
| Responder.NoExamplesAnswer | grpcmock.go:173-180 | a method without the example extension answers Unimplemented "no examples found"; an empty list answers the same error, wrapped |
| Responder.StatusTakesPrecedence | grpcmock.go:182-201 | an example with a status always gives an error, and its body is never consulted |
| Responder.StatusBecomesError | grpcmock.go:196-200 | with every detail resolved, the error carries the rule's code and message verbatim and exactly the decoded details in order; code 0 is refused with the wrapped WithDetails error |
| Responder.DetailFailureAborts | grpcmock.go:184-193 | the first detail that fails aborts the call with its own error and no partial status |
| Responder.BodyOnly | grpcmock.go:203-208 | a body-only example answers with the body decoded as the response type, or with the decoder's error wrapped |
| Responder.NeitherIsInvalid | grpcmock.go:210 | an example with neither status nor body answers Internal "invalid example" |
| Responder.StatusRoundTrip | grpcmock.go:182-200 | a status with one detail of a registered type comes back with the same code, message and the decoded detail |
| Responder.AnsweredBySelectedExample | grpcmock.go:177-181 | a call is answered by the example the selector picks, and an unknown name gives the wrapped "unknown example" |
| DynamicServices.DynamicService.constructor | internal/dynamicservice.go:25-30 | a new service has the given name and file name and no methods |
| DynamicServices.DynamicService.RegisterUnaryMethod | internal/dynamicservice.go:32-34 | the method is appended after the existing ones, which stay as they were |
| DynamicServices.DynamicService.CreateServiceDesc | internal/dynamicservice.go:41-52 | the descriptor has the service's name, the file name as metadata, and one method descriptor per registered method, in order, each with path "/service/method" |
| DynamicServices.FullMethod | internal/dynamicservice.go:73-75 | the path is "/", the service name, "/", the method name |
| DynamicServices.FullMethodRoundTrip | internal/dynamicservice.go:73-75 | a service name without '/' and the method name are read back from the path |
| DynamicServices.ParseFullMethodSound | internal/dynamicservice.go:73-75 | every path that parses is the full method of what it parses to |
| DynamicServices.CreateMethodDesc | internal/dynamicservice.go:54-56 | the method descriptor carries the method's name |
| DynamicServices.MethodHandlerOf | internal/dynamicservice.go:57-69 | a request that fails to decode is answered with the decoder's error; otherwise, without an interceptor the reply is the method handler's on the decoded request, and with one it is the interceptor's, given the decoded request, the full method and the handler |
| DynamicServices.DecodeFailureSkipsHandler | internal/dynamicservice.go:58-60 | a request that fails to decode is answered with the decoder's error, whatever the handler and the interceptor |
| DynamicServices.DirectDispatch | internal/dynamicservice.go:61-63 | without an interceptor the reply is the handler's, on the decoded request |
| DynamicServices.InterceptedDispatch | internal/dynamicservice.go:64-68 | with an interceptor, the reply is the interceptor's, given the decoded request, the handler and a full method that reads back as this service and method |
| TypeRegistry.WithFile | grpcmock.go:76-78 | registering a file succeeds exactly when its path and all its message names are free, and then adds the file and its declarations |
| TypeRegistry.WithMessage | grpcmock.go:118-120 | registering a message type succeeds exactly when its name is free, and then adds it |
| TypeRegistry.Registry.RegisterFile | grpcmock.go:76-78 | the registry is updated in place as `WithFile` says, or left unchanged with its error |
| TypeRegistry.Registry.RegisterMessage | grpcmock.go:118-120 | the type registry gains the message when the name is free, otherwise it is unchanged and the error is a name conflict |
| Sequencing.RunAllStops | grpcmock.go:50-54 | once a step has failed, the later items change neither the state nor the error |
| Sequencing.RunAllOutcome | grpcmock.go:50-54 | a run without error had every step succeed; a failed run stopped at a first failing step, whose state and error it returns |
| Sequencing.RunAllAgree | grpcmock.go:50-54 | two step functions that agree wherever the first run's steps succeed give the same run, when the first run ends without error |
| Loader.FirstMissing | grpcmock.go:69 | the position of the first import that is not registered, or none when all are |
| Loader.NewFile | grpcmock.go:69-72 | a file builds exactly when all its imports are registered; otherwise it fails with the first missing import |
| Loader.NewMessageFromTypeName | grpcmock.go:236-242 | a name resolves exactly when it is registered, to its descriptor, and otherwise fails with NotFound |
| Loader.ExamplesForMethod | grpcmock.go:244-261 | a missing extension gives no list and no error; an unreadable one gives its error; a present one gives its examples |
| Loader.MethodEntry | grpcmock.go:145-172 | a method registers exactly when its request and response types are registered and its extension is readable; the entry has its name, types and a handler over its examples, and a failure reports the first check that failed |
| Loader.MockHandler | grpcmock.go:172-211 | the closure registered for a method answers every call as `Respond` does for that method's examples and response type, whatever the request |
| Loader.MessageRegistered | grpcmock.go:100-122 | a message type already registered is left alone, any other is added; the file registry does not change |
| Loader.MessagesRegistered | grpcmock.go:85-89 | registering a file's messages only adds to the registries, and every message ends up registered |
| Loader.LoadFileOutcome | grpcmock.go:65-98 | a file with an unregistered import fails with nothing changed; any load only adds to the registries and registers no file but this one; a load without error had all imports registered, and leaves the file and its message types registered |
| Loader.LoadOutcome | grpcmock.go:50-54 | loading a descriptor set only adds to the registries, and a load without error leaves every file of the set registered |
| Loader.FilesExtend | grpcmock.go:50-54 | the file loop only adds to the registries, whatever the outcome |
| Loader.FilesRegistered | grpcmock.go:50-54 | a file loop without error leaves every file of the set registered |
| Loader.GrpcMock.constructor | grpcmock.go:31-34 | a new GrpcMock has no services |
| Loader.GrpcMock.LoadProtoDescriptorFile | grpcmock.go:36-57 | a read or parse failure is returned with nothing changed; otherwise the registries, the services and the error are those of `LoadOutcome` |
| Loader.GrpcMock.LoadFile | grpcmock.go:65-98 | the registries, services and error after the call are those of `LoadFileOutcome` |
| Loader.GrpcMock.RegisterMessages | grpcmock.go:85-89 | the registry ends as `MessagesRegistered` says |
| Loader.GrpcMock.RegisterServices | grpcmock.go:91-95 | the services and the error are those of the service loop run on the file's services |
| Loader.GrpcMock.RegisterMessage | grpcmock.go:100-122 | the registry ends as `MessageRegistered` says, and no error is returned |
| Loader.GrpcMock.RegisterService | grpcmock.go:124-143 | the new service is appended before its methods are registered, so it stays even when a method fails |
| Loader.GrpcMock.RegisterServiceMethod | grpcmock.go:145-214 | the method is appended to the service with its handler, or the service is unchanged and the first error is returned |
| Loader.GrpcMock.RegisterServiceMethods | grpcmock.go:136-140 | the service's methods and the error are those of the method loop run on the declared methods |
| Loader.MethodsAppended | grpcmock.go:136-140 | one method is appended per method that resolves, in order; the loop stops at the first one that does not, with its error |
| Loader.MethodsFromEmpty | grpcmock.go:136-140 | on an empty method list, the j-th method appended is the entry of the j-th declared method; a failure names the first declared method whose entry fails |
| Loader.ServiceOutcome | grpcmock.go:133-140 | the service has the declared name and the file's name; its methods are the entries of a prefix of the declared methods; the whole list without error, otherwise the next method's entry is the error |
| LoadProperties.ServicesAppended | grpcmock.go:91-95 | one service is appended per service visited, the failing one included; earlier services stay in front, and the error is that of the last one visited |
| LoadProperties.ServicesRunShift | grpcmock.go:133-134 | the service loop only appends after the services already there |
| LoadProperties.MessagesRegisteredIdempotent | grpcmock.go:109-112 | registering messages whose names are all taken changes nothing |
| LoadProperties.LoadFileKeepsEarlierState | grpcmock.go:65-98 | loading a file, whatever the outcome, only adds to the registries and keeps the earlier services in front; on success the file is registered |
| LoadProperties.LoadedFileServices | grpcmock.go:91-95 | a file that loads without error ran its service loop against the registries the load left behind |
| LoadProperties.ServicesMirrored | grpcmock.go:91-95 | a service loop that ends without error appends one service per declared service, in order, each mirroring its declaration |
| LoadProperties.LoadKeepsEarlierState | grpcmock.go:50-54 | the same, over a whole descriptor set |
| LoadProperties.LoadedFileMirrored | grpcmock.go:65-98 | a file that loads without error is registered with all its message types and appends one service per declared service, in order, each mirroring its declaration |
| LoadProperties.LoadFileTwice | grpcmock.go:74-81 | loading the same file again gives the same registries and the same error, but appends its services a second time |
| LoadProperties.DependencyOrder | grpcmock.go:69-72 | a file whose one unregistered import comes later in the set fails with that import missing, and nothing changes; after the import loads, the file passes the import check |
| LoadProperties.RegisteredHandler | grpcmock.go:172-174 | a registered method's handler answers from its examples and the call's context alone, ignoring the request; without the extension it answers Unimplemented |
| LoadProperties.MethodEntryStable | grpcmock.go:157-170 | a method that registers gets the same entry once the registries have grown |
| LoadProperties.ServiceOutcomeStable | grpcmock.go:133-140 | a service whose methods all register comes out the same once the registries have grown |
| LoadProperties.ServicesStable | grpcmock.go:91-95 | a service loop that ends without error runs the same once the registries have grown |
| LoadProperties.ReplayFile | grpcmock.go:65-98 | loading a file again, on registries that keep all its first load left, leaves them as they are, gives the first load's error and appends the services the first load appended |
| LoadProperties.ReplayLast | grpcmock.go:50-54 | one more file of the second load appends, behind the services already there, what the first load appended for it |
| LoadProperties.Replay | grpcmock.go:50-54 | a descriptor set loaded again on such registries leaves them as they are, gives the first load's error and appends once more what the first load appended |
| LoadProperties.LoadTwice | grpcmock.go:36-57 | loading the same descriptor set twice gives the same registries and the same error, and appends the services of the first load a second time |

## Left out

- Reading the descriptor file and parsing the `FileDescriptorSet` are not modelled. `LoadProtoDescriptorFile` receives their outcome as a `Result`.
- The protobuf wire format and `Any` decoding are not modelled. Decoders are function parameters: the `Unmarshaller` in the call's context and the request `Decoder`.
- Logging (zerolog) is not modelled.
- `GrpcMock.Register` and `DynamicService.Register` are not modelled: they hand the descriptors to `grpc.Server`, which is not part of this model.
- Concurrency is not modelled. The model also does not capture the sharing of one `req` and one `res` message by all calls of a method.
- The type assertion `desc.(protoreflect.MessageDescriptor)` is not modelled. It panics when a name denotes an enum, a service or another non-message declaration. The registry here holds message declarations only.
- Registry lookups fail only with NotFound. The branches for other lookup errors (grpcmock.go:79-80, 113-115) are therefore absent.
- `protodesc.NewFile` checks only that every import is registered. Its other validation is not modelled, and neither are nested messages or full-name derivation. A message is declared under its full name.
- `errors.Wrap` on the load path is not modelled. Load errors are returned unwrapped.
- Loader.NewMessageFromTypeName: does not wrap its error; the handler path keeps `errors.Wrap` as `Wrapped`, because there it changes the status a client sees.
- The "extensions type mismatch" error (grpcmock.go:255-258) is folded into an unreadable extension.
- A registry conflict is returned as an error. The protobuf runtime's conflict policy, which can panic instead, is not modelled.
