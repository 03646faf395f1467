/**
 * Loading a descriptor set: files in order, and within a file its messages
 * and then its services, each service's methods in order. The first error
 * ends the load; what was registered or appended before it stays.
 *
 * The pure functions say what one load does to the registries and to the
 * list of services; the GrpcMock class performs it in place and is proved
 * to end in exactly that state.
 */
module Loader {
  import opened Wrappers
  import opened Descriptors
  import opened TypeRegistry
  import opened Grpc
  import opened DynamicServices
  import opened Sequencing
  import opened Responder

  /** What a load changes: the registries and the mock's list of services. */
  datatype LoadState = LoadState(registry: RegistryState, services: seq<ServiceValue>)

  /** The position of the first import that is not registered. */
  function FirstMissing(files: map<string, FileProto>, deps: seq<string>): (r: Option<nat>)
    ensures r.None? <==> forall i :: 0 <= i < |deps| ==> deps[i] in files
    ensures r.Some? ==>
      && r.value < |deps| && deps[r.value] !in files
      && forall i :: 0 <= i < r.value ==> deps[i] in files
  {
    if deps == [] then None
    else if deps[0] !in files then Some(0)
    else match FirstMissing(files, deps[1..])
      case None => None
      case Some(k) => Some(k + 1)
  }

  /** Building a file's descriptor against the registry: every import must be registered already. */
  function NewFile(reg: RegistryState, f: FileProto): (r: Result<FileProto, Error>)
    ensures r.Ok? <==> forall i :: 0 <= i < |f.dependencies| ==> f.dependencies[i] in reg.files
    ensures r.Ok? ==> r.value == f
    ensures r.Err? ==>
      exists i :: 0 <= i < |f.dependencies| && r.error == MissingDependency(f.dependencies[i])
        && f.dependencies[i] !in reg.files && forall j :: 0 <= j < i ==> f.dependencies[j] in reg.files
  {
    match FirstMissing(reg.files, f.dependencies)
    case Some(i) => Err(MissingDependency(f.dependencies[i]))
    case None => Ok(f)
  }

  /** A message type by name, from the file registry. */
  function NewMessageFromTypeName(reg: RegistryState, name: string): (r: Result<MessageDesc, Error>)
    ensures r.Ok? <==> name in reg.descriptors
    ensures r.Ok? ==> r.value == reg.descriptors[name]
    ensures r.Err? ==> r.error == NotFound(name)
  {
    FindDescriptorByName(reg, name)
  }

  /** The method's examples; a missing extension is no error and gives no list at all (nil). */
  function ExamplesForMethod(m: MethodProto): (r: Result<Option<seq<ExampleRule>>, Error>)
    ensures r.Ok? <==> !m.example.Unreadable?
    ensures r.Ok? && r.value.None? <==> m.example.Missing?
    ensures r.Ok? && r.value.Some? ==> r.value.value == m.example.rules
    ensures r.Err? ==> r.error == ExtensionFailure(m.example.reason)
  {
    match m.example
    case Missing => Ok(None)
    case Unreadable(reason) => Err(ExtensionFailure(reason))
    case Present(rules) => Ok(Some(rules))
  }

  /** The handler closure a method is registered with: it closes over the examples and the response type. */
  function MockHandler(examples: Option<seq<ExampleRule>>, res: MessageDesc): (h: UnaryHandler)
    ensures forall ctx: Context, req: Message :: h(ctx, req) == Respond(examples, res, ctx)
  {
    (ctx: Context, req: Message) => Respond(examples, res, ctx)
  }

  /** registerServiceMethod: request type, response type and examples, in that order; the first failure wins. */
  function MethodEntry(reg: RegistryState, m: MethodProto): (r: Result<UnaryMethod, Error>)
    ensures r.Ok? <==> m.inputType in reg.descriptors && m.outputType in reg.descriptors && !m.example.Unreadable?
    ensures r.Ok? ==>
      && r.value.name == m.name
      && r.value.req == reg.descriptors[m.inputType]
      && r.value.res == reg.descriptors[m.outputType]
      && r.value.handler == MockHandler(ExamplesForMethod(m).value, r.value.res)
    ensures r.Err? ==>
      r.error == if m.inputType !in reg.descriptors then NotFound(m.inputType)
                 else if m.outputType !in reg.descriptors then NotFound(m.outputType)
                 else ExtensionFailure(m.example.reason)
  {
    var req :- NewMessageFromTypeName(reg, m.inputType);
    var res :- NewMessageFromTypeName(reg, m.outputType);
    var examples :- ExamplesForMethod(m);
    Ok(UnaryMethod(m.name, MockHandler(examples, res), req, res))
  }

  /** One iteration of the method loop: append the method, or stop with its error. */
  function MethodStep(reg: RegistryState): (seq<UnaryMethod>, MethodProto) -> (seq<UnaryMethod>, Option<Error>) {
    (ms: seq<UnaryMethod>, m: MethodProto) =>
      match MethodEntry(reg, m)
      case Ok(u) => (ms + [u], None)
      case Err(e) => (ms, Some(e))
  }

  /**
   * The method loop appends one method per entry that resolves, in order,
   * and stops at the first entry that does not, with that entry's error.
   */
  lemma {:induction false} MethodsAppended(reg: RegistryState, m0: seq<UnaryMethod>, ms: seq<MethodProto>)
    ensures var r := RunAll(MethodStep(reg), m0, ms);
      && |m0| <= |r.0| <= |m0| + |ms| && r.0[..|m0|] == m0
      && (forall j :: 0 <= j < |r.0| - |m0| ==> MethodEntry(reg, ms[j]) == Ok(r.0[|m0| + j]))
      && (r.1.None? ==> |r.0| == |m0| + |ms|)
      && (r.1.Some? ==> |r.0| < |m0| + |ms| && MethodEntry(reg, ms[|r.0| - |m0|]) == Err(r.1.value))
    decreases |ms|
  {
    if ms != [] {
      var n := |ms| - 1;
      var init := ms[..n];
      MethodsAppended(reg, m0, init);
      var p := RunAll(MethodStep(reg), m0, init);
      assert forall j :: 0 <= j < |p.0| - |m0| ==> init[j] == ms[j];
      if p.1.None? {
        var q := MethodStep(reg)(p.0, ms[n]);
        assert RunAll(MethodStep(reg), m0, ms) == q;
        if MethodEntry(reg, ms[n]).Ok? {
          assert q.0 == p.0 + [MethodEntry(reg, ms[n]).value];
          assert q.0[..|m0|] == p.0[..|m0|];
        }
      } else {
        assert RunAll(MethodStep(reg), m0, ms) == p;
      }
    }
  }

  /** MethodsAppended for a service's own method list, which starts empty. */
  lemma MethodsFromEmpty(reg: RegistryState, ms: seq<MethodProto>)
    ensures var r := RunAll(MethodStep(reg), [], ms);
      && |r.0| <= |ms|
      && (forall j :: 0 <= j < |r.0| ==> MethodEntry(reg, ms[j]) == Ok(r.0[j]))
      && (r.1.None? ==> |r.0| == |ms|)
      && (r.1.Some? ==> |r.0| < |ms| && MethodEntry(reg, ms[|r.0|]) == Err(r.1.value))
  {
    MethodsAppended(reg, [], ms);
    var r := RunAll(MethodStep(reg), [], ms);
    forall j | 0 <= j < |r.0|
      ensures MethodEntry(reg, ms[j]) == Ok(r.0[j])
    {
      assert r.0[0 + j] == r.0[j];
    }
  }

  /** registerService: the service with the methods registered before any failure, and the failure. */
  function ServiceOutcome(reg: RegistryState, fileName: string, sp: ServiceProto): (r: (ServiceValue, Option<Error>))
    ensures r.0.name == sp.fullName && r.0.fileName == fileName
    ensures |r.0.methods| <= |sp.methods|
    ensures forall j :: 0 <= j < |r.0.methods| ==> MethodEntry(reg, sp.methods[j]) == Ok(r.0.methods[j])
    ensures r.1.None? ==> |r.0.methods| == |sp.methods|
    ensures r.1.Some? ==> |r.0.methods| < |sp.methods| && MethodEntry(reg, sp.methods[|r.0.methods|]) == Err(r.1.value)
  {
    MethodsFromEmpty(reg, sp.methods);
    var run := RunAll(MethodStep(reg), [], sp.methods);
    (ServiceValue(sp.fullName, fileName, run.0), run.1)
  }

  /** One iteration of the service loop: the service is appended even when one of its methods fails. */
  function ServiceStep(reg: RegistryState, fileName: string): (seq<ServiceValue>, ServiceProto) -> (seq<ServiceValue>, Option<Error>) {
    (svcs: seq<ServiceValue>, sp: ServiceProto) =>
      var (sv, e) := ServiceOutcome(reg, fileName, sp);
      (svcs + [sv], e)
  }

  /** registerMessage: a type already registered is left alone, any other is registered. */
  function MessageRegistered(reg: RegistryState, m: MessageDesc): (r: RegistryState)
    ensures r.files == reg.files && r.descriptors == reg.descriptors
    ensures m.fullName in reg.types ==> r == reg
    ensures m.fullName !in reg.types ==> r.types == reg.types[m.fullName := m]
  {
    match FindMessageByName(reg, m.fullName)
    case Ok(_) => reg
    case Err(_) => WithMessage(reg, m).value
  }

  /** The message loop of loadFile; registering a message cannot fail after the lookup. */
  function MessagesRegistered(reg: RegistryState, ms: seq<MessageDesc>): (r: RegistryState)
    ensures r.files == reg.files && r.descriptors == reg.descriptors
    ensures Extends(reg, r)
    ensures forall i :: 0 <= i < |ms| ==> ms[i].fullName in r.types
    ensures forall n :: n in r.types ==> n in reg.types || exists i :: 0 <= i < |ms| && ms[i].fullName == n
    decreases |ms|
  {
    if ms == [] then reg
    else
      var init := ms[..|ms| - 1];
      assert forall i :: 0 <= i < |init| ==> init[i] == ms[i];
      MessageRegistered(MessagesRegistered(reg, init), ms[|ms| - 1])
  }

  lemma MessagesRegisteredExtend(reg: RegistryState, ms: seq<MessageDesc>, i: nat)
    requires i < |ms|
    ensures MessagesRegistered(reg, ms[..i + 1]) == MessageRegistered(MessagesRegistered(reg, ms[..i]), ms[i])
  {
    assert ms[..i + 1][..i] == ms[..i];
  }

  /** loadFile */
  function LoadFileOutcome(st: LoadState, f: FileProto): (r: (LoadState, Option<Error>))
    ensures (exists i :: 0 <= i < |f.dependencies| && f.dependencies[i] !in st.registry.files) ==> r.0 == st && r.1.Some?
    ensures Extends(st.registry, r.0.registry)
    ensures r.0.registry.files.Keys <= st.registry.files.Keys + {f.name}
    ensures r.1.None? ==>
      && (forall i :: 0 <= i < |f.dependencies| ==> f.dependencies[i] in st.registry.files)
      && f.name in r.0.registry.files
      && forall i :: 0 <= i < |f.messages| ==> f.messages[i].fullName in r.0.registry.types
  {
    match NewFile(st.registry, f)
    case Err(e) => (st, Some(e))
    case Ok(df) =>
      var registered :=
        if FindFileByPath(st.registry, f.name).Err? then WithFile(st.registry, df) else Ok(st.registry);
      match registered
      case Err(e) => (st, Some(e))
      case Ok(reg) =>
        var reg' := MessagesRegistered(reg, df.messages);
        var run := RunAll(ServiceStep(reg', f.name), st.services, df.services);
        (LoadState(reg', run.0), run.1)
  }

  /** The file loop of LoadProtoDescriptorFile. */
  function LoadOutcome(st: LoadState, files: seq<FileProto>): (r: (LoadState, Option<Error>))
    ensures Extends(st.registry, r.0.registry)
    ensures r.1.None? ==> forall i :: 0 <= i < |files| ==> files[i].name in r.0.registry.files
  {
    FilesExtend(st, files);
    FilesRegistered(st, files);
    RunAll(LoadFileOutcome, st, files)
  }

  /** Loading files in order only adds to the registries. */
  lemma {:induction false} FilesExtend(st: LoadState, files: seq<FileProto>)
    ensures Extends(st.registry, RunAll(LoadFileOutcome, st, files).0.registry)
    decreases |files|
  {
    if files != [] {
      var n := |files| - 1;
      FilesExtend(st, files[..n]);
      var p := RunAll(LoadFileOutcome, st, files[..n]);
      if p.1.None? {
        var q := LoadFileOutcome(p.0, files[n]);
        assert RunAll(LoadFileOutcome, st, files) == q;
        ExtendsTrans(st.registry, p.0.registry, q.0.registry);
      } else {
        assert RunAll(LoadFileOutcome, st, files) == p;
      }
    }
  }

  /** Files loaded in order stay registered: a load without error leaves every one of them registered. */
  lemma {:induction false} FilesRegistered(st: LoadState, files: seq<FileProto>)
    ensures RunAll(LoadFileOutcome, st, files).1.None? ==>
      forall i :: 0 <= i < |files| ==> files[i].name in RunAll(LoadFileOutcome, st, files).0.registry.files
    decreases |files|
  {
    if files != [] {
      var n := |files| - 1;
      var init := files[..n];
      FilesRegistered(st, init);
      var p := RunAll(LoadFileOutcome, st, init);
      if p.1.None? {
        var q := LoadFileOutcome(p.0, files[n]);
        assert RunAll(LoadFileOutcome, st, files) == q;
        if q.1.None? {
          assert p.0.registry.files.Keys <= q.0.registry.files.Keys;
          forall i | 0 <= i < n
            ensures files[i].name in q.0.registry.files
          {
            assert init[i] == files[i];
          }
        }
      } else {
        assert RunAll(LoadFileOutcome, st, files) == p;
      }
    }
  }

  class GrpcMock {
    var services: seq<DynamicService>

    /** The services registered so far, as values. */
    function Services(): seq<ServiceValue>
      reads this, services
    {
      seq(|services|, i requires 0 <= i < |services| reads this, services => services[i].Value())
    }

    function State(reg: Registry): LoadState
      reads this, services, reg
    {
      LoadState(reg.State(), Services())
    }

    constructor ()
      ensures services == [] && Services() == []
    {
      services := [];
    }

    /** Loads every file of a descriptor set (given as the outcome of reading and parsing it). */
    method LoadProtoDescriptorFile(reg: Registry, fileSet: Result<seq<FileProto>, Error>) returns (err: Option<Error>)
      modifies this, reg
      ensures fileSet.Err? ==> err == Some(fileSet.error) && State(reg) == old(State(reg))
      ensures fileSet.Ok? ==> (State(reg), err) == LoadOutcome(old(State(reg)), fileSet.value)
    {
      if fileSet.Err? {
        return Some(fileSet.error);
      }
      var files := fileSet.value;
      ghost var st0 := State(reg);
      var i := 0;
      while i < |files|
        invariant 0 <= i <= |files|
        invariant RunAll(LoadFileOutcome, st0, files[..i]) == (State(reg), None)
      {
        err := LoadFile(reg, files[i]);
        RunAllExtend(LoadFileOutcome, st0, files, i);
        if err.Some? {
          RunAllStops(LoadFileOutcome, st0, files, i + 1);
          return;
        }
        i := i + 1;
      }
      assert files[..i] == files;
      err := None;
    }

    method LoadFile(reg: Registry, f: FileProto) returns (err: Option<Error>)
      modifies this, reg
      ensures (State(reg), err) == LoadFileOutcome(old(State(reg)), f)
    {
      ghost var st := State(reg);
      var df := NewFile(reg.State(), f);
      if df.Err? {
        return Some(df.error);
      }
      // The registry's lookups fail only with NotFound, so a failed lookup means "register it".
      var found := FindFileByPath(reg.State(), f.name);
      ghost var registered := if found.Err? then WithFile(st.registry, f) else Ok(st.registry);
      if found.Err? {
        err := reg.RegisterFile(df.value);
        if err.Some? {
          assert registered == Err(err.value);
          return;
        }
      }
      assert registered == Ok(reg.State());
      RegisterMessages(reg, f.messages);
      ghost var reg' := reg.State();
      assert reg' == MessagesRegistered(registered.value, f.messages);
      assert Services() == st.services;
      err := RegisterServices(reg, f);
      assert reg.State() == reg';
      ghost var run := RunAll(ServiceStep(reg', f.name), st.services, f.services);
      assert (Services(), err) == run;
      assert LoadFileOutcome(st, f) == (LoadState(reg', run.0), run.1);
    }

    /** The message loop of loadFile. */
    method RegisterMessages(reg: Registry, ms: seq<MessageDesc>)
      modifies reg
      ensures reg.State() == MessagesRegistered(old(reg.State()), ms)
    {
      ghost var reg0 := reg.State();
      var i := 0;
      assert ms[..0] == [];
      while i < |ms|
        invariant 0 <= i <= |ms|
        invariant reg.State() == MessagesRegistered(reg0, ms[..i])
      {
        var _ := RegisterMessage(reg, ms[i]);
        MessagesRegisteredExtend(reg0, ms, i);
        i := i + 1;
      }
      assert ms[..i] == ms;
    }

    /** The service loop of loadFile: the first service whose registration fails ends it. */
    method RegisterServices(reg: Registry, f: FileProto) returns (err: Option<Error>)
      modifies this
      ensures (Services(), err) == RunAll(ServiceStep(reg.State(), f.name), old(Services()), f.services)
    {
      ghost var s0 := Services();
      var i := 0;
      err := None;
      assert f.services[..0] == [];
      while i < |f.services|
        invariant 0 <= i <= |f.services|
        invariant err.None?
        invariant RunAll(ServiceStep(reg.State(), f.name), s0, f.services[..i]) == (Services(), None)
      {
        err := RegisterService(reg, f, f.services[i]);
        RunAllExtend(ServiceStep(reg.State(), f.name), s0, f.services, i);
        if err.Some? {
          RunAllStops(ServiceStep(reg.State(), f.name), s0, f.services, i + 1);
          break;
        }
        i := i + 1;
      }
      if err.None? {
        assert f.services[..i] == f.services;
      }
    }

    method RegisterMessage(reg: Registry, m: MessageDesc) returns (err: Option<Error>)
      modifies reg
      ensures reg.State() == MessageRegistered(old(reg.State()), m) && err == None
    {
      var found := FindMessageByName(reg.State(), m.fullName);
      if found.Ok? {
        return None;
      }
      err := reg.RegisterMessage(m);
    }

    /** Appends the service first, then registers its methods onto it. */
    method RegisterService(reg: Registry, f: FileProto, sp: ServiceProto) returns (err: Option<Error>)
      modifies this
      ensures (Services(), err) == ServiceStep(reg.State(), f.name)(old(Services()), sp)
    {
      var s := new DynamicService(sp.fullName, f.name);
      services := services + [s];
      err := RegisterServiceMethods(reg, s, sp.methods);
      assert ServiceOutcome(reg.State(), f.name, sp) == (s.Value(), err);
      // The services before s are the ones there were, untouched.
      forall j | 0 <= j < |old(services)|
        ensures services[j].Value() == old(services[j].Value())
      {
        assert services[j] == old(services)[j];
      }
      assert forall j | 0 <= j < |old(services)| :: Services()[j] == old(Services())[j];
      assert Services()[|services| - 1] == s.Value();
      assert Services() == old(Services()) + [s.Value()];
      assert ServiceStep(reg.State(), f.name)(old(Services()), sp) == (old(Services()) + [s.Value()], err);
    }

    /** The method loop of registerService: the first method that fails to register ends it. */
    method RegisterServiceMethods(reg: Registry, s: DynamicService, ms: seq<MethodProto>) returns (err: Option<Error>)
      modifies s
      ensures (s.methods, err) == RunAll(MethodStep(reg.State()), old(s.methods), ms)
    {
      ghost var m0 := s.methods;
      err := None;
      var i := 0;
      assert ms[..0] == [];
      while i < |ms|
        invariant 0 <= i <= |ms|
        invariant err.None?
        invariant RunAll(MethodStep(reg.State()), m0, ms[..i]) == (s.methods, None)
      {
        err := RegisterServiceMethod(reg, s, ms[i]);
        RunAllExtend(MethodStep(reg.State()), m0, ms, i);
        if err.Some? {
          RunAllStops(MethodStep(reg.State()), m0, ms, i + 1);
          break;
        }
        i := i + 1;
      }
      if err.None? {
        assert ms[..i] == ms;
      }
    }

    method RegisterServiceMethod(reg: Registry, s: DynamicService, mp: MethodProto) returns (err: Option<Error>)
      modifies s
      ensures (s.methods, err) == MethodStep(reg.State())(old(s.methods), mp)
    {
      var req := NewMessageFromTypeName(reg.State(), mp.inputType);
      if req.Err? {
        return Some(req.error);
      }
      var res := NewMessageFromTypeName(reg.State(), mp.outputType);
      if res.Err? {
        return Some(res.error);
      }
      var examples := ExamplesForMethod(mp);
      if examples.Err? {
        return Some(examples.error);
      }
      s.RegisterUnaryMethod(mp.name, req.value, res.value, MockHandler(examples.value, res.value));
      err := None;
    }
  }
}
