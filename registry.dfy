/**
 * The process-wide protobuf registries: the file registry (files by path and
 * their message declarations by full name) and the type registry (message
 * types by full name). The pure functions on RegistryState say what each
 * lookup and registration does; the Registry class is the mutable global that
 * the loader updates in place.
 */
module TypeRegistry {
  import opened Wrappers
  import opened Descriptors

  datatype RegistryState = RegistryState(
    files: map<string, FileProto>,          // file registry, by path
    descriptors: map<string, MessageDesc>,  // file registry, declarations by full name
    types: map<string, MessageDesc>)        // type registry, by full name

  const Empty := RegistryState(map[], map[], map[])

  function FindFileByPath(st: RegistryState, path: string): Result<FileProto, Error> {
    if path in st.files then Ok(st.files[path]) else Err(NotFound(path))
  }

  function FindDescriptorByName(st: RegistryState, name: string): Result<MessageDesc, Error> {
    if name in st.descriptors then Ok(st.descriptors[name]) else Err(NotFound(name))
  }

  function FindMessageByName(st: RegistryState, name: string): Result<MessageDesc, Error> {
    if name in st.types then Ok(st.types[name]) else Err(NotFound(name))
  }

  /** The message declarations a file contributes, keyed by full name. */
  function Declarations(f: FileProto): (decls: map<string, MessageDesc>)
    ensures forall m :: m in f.messages ==> m.fullName in decls && decls[m.fullName] == m
    ensures forall n :: n in decls ==> MessageDesc(n) in f.messages
  {
    map m | m in f.messages :: m.fullName := m
  }

  /** The first message of `ms` whose name is taken in `taken`. */
  function FirstTaken(taken: map<string, MessageDesc>, ms: seq<MessageDesc>): (r: Option<string>)
    ensures r.None? <==> forall i :: 0 <= i < |ms| ==> ms[i].fullName !in taken
    ensures r.Some? ==> r.value in taken
  {
    if ms == [] then None
    else if ms[0].fullName in taken then Some(ms[0].fullName)
    else FirstTaken(taken, ms[1..])
  }

  /** Registering a file: refused when its path or one of its names is taken. */
  function WithFile(st: RegistryState, f: FileProto): (r: Result<RegistryState, Error>)
    ensures r.Ok? <==> f.name !in st.files && forall i :: 0 <= i < |f.messages| ==> f.messages[i].fullName !in st.descriptors
    ensures r.Ok? ==> r.value == st.(files := st.files[f.name := f], descriptors := st.descriptors + Declarations(f))
  {
    if f.name in st.files then Err(NameConflict(f.name))
    else match FirstTaken(st.descriptors, f.messages)
      case Some(n) => Err(NameConflict(n))
      case None => Ok(st.(files := st.files[f.name := f], descriptors := st.descriptors + Declarations(f)))
  }

  /** Registering a message type: refused when its name is taken. */
  function WithMessage(st: RegistryState, m: MessageDesc): (r: Result<RegistryState, Error>)
    ensures r.Ok? <==> m.fullName !in st.types
    ensures r.Ok? ==> r.value == st.(types := st.types[m.fullName := m])
  {
    if m.fullName in st.types then Err(NameConflict(m.fullName))
    else Ok(st.(types := st.types[m.fullName := m]))
  }

  /** `st'` keeps every registration of `st`: registries only ever grow. */
  predicate Extends(st: RegistryState, st': RegistryState) {
    && st.files.Keys <= st'.files.Keys
    && (forall p :: p in st.files ==> st'.files[p] == st.files[p])
    && st.descriptors.Keys <= st'.descriptors.Keys
    && (forall n :: n in st.descriptors ==> st'.descriptors[n] == st.descriptors[n])
    && st.types.Keys <= st'.types.Keys
    && (forall n :: n in st.types ==> st'.types[n] == st.types[n])
  }

  /** Extends is transitive. */
  lemma ExtendsTrans(a: RegistryState, b: RegistryState, c: RegistryState)
    requires Extends(a, b) && Extends(b, c)
    ensures Extends(a, c)
  {
  }

  class Registry {
    var files: map<string, FileProto>
    var descriptors: map<string, MessageDesc>
    var types: map<string, MessageDesc>

    function State(): RegistryState
      reads this
    {
      RegistryState(files, descriptors, types)
    }

    constructor ()
      ensures State() == Empty
    {
      files, descriptors, types := map[], map[], map[];
    }

    method RegisterFile(f: FileProto) returns (err: Option<Error>)
      modifies this
      ensures WithFile(old(State()), f).Ok? ==> State() == WithFile(old(State()), f).value && err == None
      ensures WithFile(old(State()), f).Err? ==> State() == old(State()) && err == Some(WithFile(old(State()), f).error)
    {
      var r := WithFile(State(), f);
      if r.Err? {
        return Some(r.error);
      }
      files, descriptors := r.value.files, r.value.descriptors;
      err := None;
    }

    method RegisterMessage(m: MessageDesc) returns (err: Option<Error>)
      modifies this
      ensures m.fullName !in old(types) ==> types == old(types)[m.fullName := m] && err == None
      ensures m.fullName in old(types) ==> types == old(types) && err == Some(NameConflict(m.fullName))
      ensures files == old(files) && descriptors == old(descriptors)
    {
      if m.fullName in types {
        return Some(NameConflict(m.fullName));
      }
      types := types[m.fullName := m];
      err := None;
    }
  }
}
