/**
 * What loading promises, stated on the pure description of a load: what a
 * loaded file leaves behind, what a failure leaves behind, what loading a
 * file a second time does, and why a file must come after its imports.
 */
module LoadProperties {
  import opened Wrappers
  import opened Descriptors
  import opened TypeRegistry
  import opened Grpc
  import opened DynamicServices
  import opened Sequencing
  import opened ExampleResolver
  import opened Responder
  import opened Loader

  /**
   * The service loop appends one service per entry it visits, even for the
   * entry whose methods fail, and stops with the error of that entry.
   */
  lemma {:induction false} ServicesAppended(reg: RegistryState, fileName: string, s0: seq<ServiceValue>, ss: seq<ServiceProto>)
    ensures var r := RunAll(ServiceStep(reg, fileName), s0, ss);
      && |s0| <= |r.0| <= |s0| + |ss| && r.0[..|s0|] == s0
      && (forall j :: 0 <= j < |r.0| - |s0| ==> r.0[|s0| + j] == ServiceOutcome(reg, fileName, ss[j]).0)
      && (forall j :: 0 <= j < |r.0| - |s0| ==>
            ServiceOutcome(reg, fileName, ss[j]).1 == if |s0| + j + 1 == |r.0| then r.1 else None)
      && (r.1.None? ==> |r.0| == |s0| + |ss|)
      && (r.1.Some? ==> |r.0| > |s0|)
    decreases |ss|
  {
    if ss != [] {
      var n := |ss| - 1;
      var init := ss[..n];
      ServicesAppended(reg, fileName, s0, init);
      var (t, e) := RunAll(ServiceStep(reg, fileName), s0, init);
      assert forall j :: 0 <= j < |t| - |s0| ==> init[j] == ss[j];
      if e.None? {
        var (sv, e') := ServiceOutcome(reg, fileName, ss[n]);
        assert RunAll(ServiceStep(reg, fileName), s0, ss) == (t + [sv], e');
        assert (t + [sv])[..|s0|] == t[..|s0|];
      }
    }
  }

  /** The service loop does not look at the services before it: it only appends after them. */
  lemma {:induction false} ServicesRunShift(reg: RegistryState, fileName: string, s0: seq<ServiceValue>, ss: seq<ServiceProto>)
    ensures var r := RunAll(ServiceStep(reg, fileName), [], ss);
      RunAll(ServiceStep(reg, fileName), s0, ss) == (s0 + r.0, r.1)
    decreases |ss|
  {
    if ss != [] {
      var n := |ss| - 1;
      var step := ServiceStep(reg, fileName);
      ServicesRunShift(reg, fileName, s0, ss[..n]);
      var (t, e) := RunAll(step, [], ss[..n]);
      assert RunAll(step, s0, ss[..n]) == (s0 + t, e);
      if e.None? {
        var (sv, e') := ServiceOutcome(reg, fileName, ss[n]);
        assert RunAll(step, [], ss) == (t + [sv], e');
        assert RunAll(step, s0, ss) == ((s0 + t) + [sv], e');
        assert s0 + (t + [sv]) == (s0 + t) + [sv];
      }
    } else {
      assert s0 + [] == s0;
    }
  }

  /** Registering messages whose names are all taken changes nothing. */
  lemma {:induction false} MessagesRegisteredIdempotent(reg: RegistryState, ms: seq<MessageDesc>)
    requires forall i :: 0 <= i < |ms| ==> ms[i].fullName in reg.types
    ensures MessagesRegistered(reg, ms) == reg
    decreases |ms|
  {
    if ms != [] {
      var init := ms[..|ms| - 1];
      assert forall i :: 0 <= i < |init| ==> init[i] == ms[i];
      MessagesRegisteredIdempotent(reg, init);
    }
  }

  /**
   * Loading a file, whatever its outcome, never takes anything away: the
   * registries only grow and the earlier services stay, in front.
   */
  lemma LoadFileKeepsEarlierState(st: LoadState, f: FileProto)
    ensures var st' := LoadFileOutcome(st, f).0;
      && Extends(st.registry, st'.registry)
      && |st.services| <= |st'.services| && st'.services[..|st.services|] == st.services
    ensures LoadFileOutcome(st, f).1.None? ==> f.name in LoadFileOutcome(st, f).0.registry.files
  {
    match NewFile(st.registry, f)
    case Err(_) =>
      assert st.services[..|st.services|] == st.services;
    case Ok(df) =>
      var registered :=
        if FindFileByPath(st.registry, f.name).Err? then WithFile(st.registry, df) else Ok(st.registry);
      match registered
      case Err(_) =>
        assert st.services[..|st.services|] == st.services;
      case Ok(reg) =>
        assert Extends(st.registry, reg);
        var reg' := MessagesRegistered(reg, df.messages);
        ExtendsTrans(st.registry, reg, reg');
        ServicesAppended(reg', f.name, st.services, df.services);
  }

  /** Over a whole descriptor set: whatever the outcome, nothing registered or appended before is lost. */
  lemma {:induction false} LoadKeepsEarlierState(st: LoadState, files: seq<FileProto>)
    ensures var st' := LoadOutcome(st, files).0;
      && Extends(st.registry, st'.registry)
      && |st.services| <= |st'.services| && st'.services[..|st.services|] == st.services
    decreases |files|
  {
    if files == [] {
      assert st.services[..|st.services|] == st.services;
    } else {
      var init := files[..|files| - 1];
      LoadKeepsEarlierState(st, init);
      var (t, e) := LoadOutcome(st, init);
      if e.None? {
        LoadFileKeepsEarlierState(t, files[|files| - 1]);
        var (t', e') := LoadFileOutcome(t, files[|files| - 1]);
        ExtendsTrans(st.registry, t.registry, t'.registry);
        assert t'.services[..|st.services|] == t'.services[..|t.services|][..|st.services|];
      }
    }
  }

  /** A registered service mirrors its declaration: its name, its file, and one method per declared method. */
  ghost predicate Mirrors(reg: RegistryState, fileName: string, sv: ServiceValue, sp: ServiceProto) {
    && sv.name == sp.fullName && sv.fileName == fileName
    && |sv.methods| == |sp.methods|
    && forall j :: 0 <= j < |sv.methods| ==> MethodEntry(reg, sp.methods[j]) == Ok(sv.methods[j])
  }

  /** A service loop that ends without error appends one mirroring service per declared service, in order. */
  lemma ServicesMirrored(reg: RegistryState, fileName: string, s0: seq<ServiceValue>, ss: seq<ServiceProto>)
    requires RunAll(ServiceStep(reg, fileName), s0, ss).1.None?
    ensures var out := RunAll(ServiceStep(reg, fileName), s0, ss).0;
      && |out| == |s0| + |ss|
      && out[..|s0|] == s0
      && forall k :: 0 <= k < |ss| ==> Mirrors(reg, fileName, out[|s0| + k], ss[k])
  {
    ServicesAppended(reg, fileName, s0, ss);
    var out := RunAll(ServiceStep(reg, fileName), s0, ss).0;
    forall k | 0 <= k < |ss|
      ensures Mirrors(reg, fileName, out[|s0| + k], ss[k])
    {
      assert ServiceOutcome(reg, fileName, ss[k]).1.None?;
    }
  }

  /** A file that loads without error ran its service loop against the registries it left behind. */
  lemma LoadedFileServices(st: LoadState, f: FileProto)
    requires LoadFileOutcome(st, f).1.None?
    ensures var st' := LoadFileOutcome(st, f).0;
      (st'.services, None) == RunAll(ServiceStep(st'.registry, f.name), st.services, f.services)
  {
    match NewFile(st.registry, f)
    case Err(_) =>
    case Ok(df) =>
      var registered :=
        if FindFileByPath(st.registry, f.name).Err? then WithFile(st.registry, df) else Ok(st.registry);
      match registered
      case Err(_) =>
      case Ok(reg) =>
  }

  /**
   * A file that loads without error is registered with all its message
   * types, and it adds one service per service it declares, in order, each
   * mirroring its declaration.
   */
  lemma LoadedFileMirrored(st: LoadState, f: FileProto)
    requires LoadFileOutcome(st, f).1.None?
    ensures var st' := LoadFileOutcome(st, f).0;
      && f.name in st'.registry.files
      && (forall i :: 0 <= i < |f.messages| ==> f.messages[i].fullName in st'.registry.types)
      && |st'.services| == |st.services| + |f.services|
      && st'.services[..|st.services|] == st.services
      && forall k :: 0 <= k < |f.services| ==> Mirrors(st'.registry, f.name, st'.services[|st.services| + k], f.services[k])
  {
    LoadedFileServices(st, f);
    ServicesMirrored(LoadFileOutcome(st, f).0.registry, f.name, st.services, f.services);
  }

  /**
   * Loading the same file again gives the same registries and the same
   * error, but the services it declares are appended a second time.
   */
  lemma LoadFileTwice(st: LoadState, f: FileProto)
    ensures var r1 := LoadFileOutcome(st, f);
      var r2 := LoadFileOutcome(r1.0, f);
      && |st.services| <= |r1.0.services|
      && r2.0.registry == r1.0.registry && r2.1 == r1.1
      && r2.0.services == r1.0.services + r1.0.services[|st.services|..]
  {
    LoadFileKeepsEarlierState(st, f);
    var (s1, e1) := LoadFileOutcome(st, f);
    if NewFile(st.registry, f).Err? || s1 == st {
      assert s1.services[|st.services|..] == [];
    } else {
      var reg := if FindFileByPath(st.registry, f.name).Err? then WithFile(st.registry, f).value else st.registry;
      var reg' := MessagesRegistered(reg, f.messages);
      assert s1.registry == reg';
      assert f.name in reg'.files;
      assert NewFile(s1.registry, f) == Ok(f);
      MessagesRegisteredIdempotent(reg', f.messages);
      ServicesRunShift(reg', f.name, st.services, f.services);
      ServicesRunShift(reg', f.name, s1.services, f.services);
      var (out, e) := RunAll(ServiceStep(reg', f.name), [], f.services);
      assert s1.services == st.services + out;
      assert s1.services[|st.services|..] == out;
    }
  }

  /**
   * A file whose only unregistered import is g fails to load before g with
   * MissingDependency(g.name), and the load stops with nothing changed.
   * Loaded after g, the same file passes the import check.
   */
  lemma DependencyOrder(st: LoadState, g: FileProto, f: FileProto)
    requires g.name in f.dependencies && g.name !in st.registry.files
    requires forall i :: 0 <= i < |f.dependencies| ==> f.dependencies[i] == g.name || f.dependencies[i] in st.registry.files
    ensures LoadOutcome(st, [f, g]) == (st, Some(MissingDependency(g.name)))
    ensures LoadFileOutcome(st, g).1.None? ==> NewFile(LoadFileOutcome(st, g).0.registry, f) == Ok(f)
  {
    assert NewFile(st.registry, f) == Err(MissingDependency(g.name));
    RunAllExtend(LoadFileOutcome, st, [f, g], 0);
    assert [f, g][..1] == [f];
    RunAllStops(LoadFileOutcome, st, [f, g], 1);
    LoadFileKeepsEarlierState(st, g);
  }

  /**
   * The handler registered for a method answers every call from the
   * method's examples and the call's metadata alone; the request does not
   * matter, and a method without the example extension answers Unimplemented.
   */
  lemma RegisteredHandler(reg: RegistryState, m: MethodProto, ctx: Context, req: Message)
    requires MethodEntry(reg, m).Ok?
    ensures MethodEntry(reg, m).value.handler(ctx, req)
         == Respond(ExamplesForMethod(m).value, reg.descriptors[m.outputType], ctx)
    ensures m.example.Missing? ==> MethodEntry(reg, m).value.handler(ctx, req) == Err(NoExamples)
  {
    if m.example.Missing? {
      assert ExamplesForMethod(m).value == None;
    }
  }

  /** A method that registers keeps its entry when the registries grow. */
  lemma MethodEntryStable(reg: RegistryState, reg': RegistryState, m: MethodProto)
    requires Extends(reg, reg') && MethodEntry(reg, m).Ok?
    ensures MethodEntry(reg', m) == MethodEntry(reg, m)
  {
  }

  /** A service whose methods all register comes out the same when the registries grow. */
  lemma ServiceOutcomeStable(reg: RegistryState, reg': RegistryState, fileName: string, sp: ServiceProto)
    requires Extends(reg, reg') && ServiceOutcome(reg, fileName, sp).1.None?
    ensures ServiceOutcome(reg', fileName, sp) == ServiceOutcome(reg, fileName, sp)
  {
    forall t: seq<UnaryMethod>, m | MethodStep(reg)(t, m).1.None?
      ensures MethodStep(reg')(t, m) == MethodStep(reg)(t, m)
    {
      MethodEntryStable(reg, reg', m);
    }
    RunAllAgree(MethodStep(reg), MethodStep(reg'), [], sp.methods);
  }

  /** A service loop that finishes without error runs the same when the registries grow. */
  lemma ServicesStable(reg: RegistryState, reg': RegistryState, fileName: string, s0: seq<ServiceValue>, ss: seq<ServiceProto>)
    requires Extends(reg, reg') && RunAll(ServiceStep(reg, fileName), s0, ss).1.None?
    ensures RunAll(ServiceStep(reg', fileName), s0, ss) == RunAll(ServiceStep(reg, fileName), s0, ss)
  {
    forall t: seq<ServiceValue>, sp | ServiceStep(reg, fileName)(t, sp).1.None?
      ensures ServiceStep(reg', fileName)(t, sp) == ServiceStep(reg, fileName)(t, sp)
    {
      ServiceOutcomeStable(reg, reg', fileName, sp);
    }
    RunAllAgree(ServiceStep(reg, fileName), ServiceStep(reg', fileName), s0, ss);
  }

  /**
   * Loading a file again, on registries that keep everything its first load
   * left (and are exactly those when the first load failed), leaves the
   * registries alone, fails the same way, and appends the same services.
   */
  lemma ReplayFile(t: LoadState, f: FileProto, v: LoadState)
    requires Extends(LoadFileOutcome(t, f).0.registry, v.registry)
    requires LoadFileOutcome(t, f).1.Some? ==> v.registry == LoadFileOutcome(t, f).0.registry
    ensures |t.services| <= |LoadFileOutcome(t, f).0.services|
    ensures LoadFileOutcome(v, f)
         == (LoadState(v.registry, v.services + LoadFileOutcome(t, f).0.services[|t.services|..]), LoadFileOutcome(t, f).1)
  {
    var r1 := LoadFileOutcome(t, f);
    var reg2 := v.registry;
    LoadFileKeepsEarlierState(t, f);
    var registered :=
      if FindFileByPath(t.registry, f.name).Err? then WithFile(t.registry, f) else Ok(t.registry);
    if NewFile(t.registry, f).Err? || registered.Err? {
      assert r1.0 == t;
      assert r1.0.services[|t.services|..] == [];
      assert v.services + [] == v.services;
    } else {
      var reg := registered.value;
      var reg' := MessagesRegistered(reg, f.messages);
      var run := RunAll(ServiceStep(reg', f.name), t.services, f.services);
      assert r1 == (LoadState(reg', run.0), run.1);
      assert f.name in reg'.files;
      assert NewFile(reg2, f) == Ok(f);
      assert FindFileByPath(reg2, f.name).Ok?;
      MessagesRegisteredIdempotent(reg2, f.messages);
      var out := RunAll(ServiceStep(reg', f.name), [], f.services);
      ServicesRunShift(reg', f.name, t.services, f.services);
      ServicesRunShift(reg2, f.name, v.services, f.services);
      if run.1.None? {
        ServicesStable(reg', reg2, f.name, [], f.services);
      }
      assert run.0 == t.services + out.0;
      assert run.0[|t.services|..] == out.0;
    }
  }

  /** The set of files loaded again from registries satisfying ReplayFile's condition, file after file. */
  lemma {:induction false} Replay(st: LoadState, files: seq<FileProto>, u: LoadState)
    requires Extends(RunAll(LoadFileOutcome, st, files).0.registry, u.registry)
    requires RunAll(LoadFileOutcome, st, files).1.Some? ==> u.registry == RunAll(LoadFileOutcome, st, files).0.registry
    ensures |st.services| <= |RunAll(LoadFileOutcome, st, files).0.services|
    ensures RunAll(LoadFileOutcome, u, files)
         == (LoadState(u.registry, u.services + RunAll(LoadFileOutcome, st, files).0.services[|st.services|..]),
             RunAll(LoadFileOutcome, st, files).1)
    decreases |files|
  {
    if files == [] {
      assert st.services[|st.services|..] == [];
      assert u.services + [] == u.services;
    } else {
      var n := |files| - 1;
      var p := RunAll(LoadFileOutcome, st, files[..n]);
      if p.1.Some? {
        assert RunAll(LoadFileOutcome, st, files) == p;
        Replay(st, files[..n], u);
      } else {
        var q := LoadFileOutcome(p.0, files[n]);
        assert RunAll(LoadFileOutcome, st, files) == q;
        ExtendsTrans(p.0.registry, q.0.registry, u.registry);
        Replay(st, files[..n], u);
        var w := RunAll(LoadFileOutcome, u, files[..n]).0;
        ReplayLast(st, p.0, files[n], u, w);
        assert RunAll(LoadFileOutcome, u, files) == LoadFileOutcome(w, files[n]);
      }
    }
  }

  /** What follows position k in a sequence that extends b: the rest of b, then what was added. */
  lemma SuffixSplit<T>(a: seq<T>, b: seq<T>, k: nat)
    requires k <= |b| <= |a| && a[..|b|] == b
    ensures a[k..] == b[k..] + a[|b|..]
  {
    assert forall i :: 0 <= i < |b| - k ==> a[k..][i] == b[k + i];
  }

  /**
   * The step of Replay for one more file: the first load reached p, the
   * second reached w, which holds the services the first load appended after
   * st's, behind u's.
   */
  lemma ReplayLast(st: LoadState, p: LoadState, f: FileProto, u: LoadState, w: LoadState)
    requires |st.services| <= |p.services|
    requires Extends(LoadFileOutcome(p, f).0.registry, u.registry)
    requires LoadFileOutcome(p, f).1.Some? ==> u.registry == LoadFileOutcome(p, f).0.registry
    requires w == LoadState(u.registry, u.services + p.services[|st.services|..])
    ensures |st.services| <= |LoadFileOutcome(p, f).0.services|
    ensures LoadFileOutcome(w, f)
         == (LoadState(u.registry, u.services + LoadFileOutcome(p, f).0.services[|st.services|..]), LoadFileOutcome(p, f).1)
  {
    var q := LoadFileOutcome(p, f);
    ReplayFile(p, f, w);
    LoadFileKeepsEarlierState(p, f);
    SuffixSplit(q.0.services, p.services, |st.services|);
    assert w.services + q.0.services[|p.services|..] == u.services + q.0.services[|st.services|..];
  }

  /**
   * Loading the same descriptor set twice gives the registries and the error
   * of loading it once; the services the first load appended are appended
   * once more.
   */
  lemma LoadTwice(st: LoadState, files: seq<FileProto>)
    ensures var r1 := LoadOutcome(st, files);
      var r2 := LoadOutcome(r1.0, files);
      && r2.0.registry == r1.0.registry && r2.1 == r1.1
      && |st.services| <= |r1.0.services|
      && r2.0.services == r1.0.services + r1.0.services[|st.services|..]
  {
    var r1 := LoadOutcome(st, files);
    Replay(st, files, r1.0);
  }
}
