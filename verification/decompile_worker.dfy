/** The decompile work action (JarDecompileWorker.java): the default
    Fernflower options, the merge that lets user options win, and the
    lifecycle of `execute` around the byte store and the result hook. */
module DecompileWorker {
  import opened Base
  import opened Strings
  import opened ByteStore
  import opened ResultSaver
  import opened LineMapping

  /** Fernflower's option values for on and off. */
  const True := "1"
  const False := "0"

  /** Fernflower's preference keys (`IFernflowerPreferences`). */
  const AsciiStringCharacters := "asc"
  const DecompileGenericSignatures := "dgs"
  const DecompileInner := "din"
  const IncludeEntireClasspath := "iec"
  const RemoveBridge := "rbr"
  const RemoveSynthetic := "rsy"
  const LiteralsAsIs := "lit"
  const UnitTestMode := "__unit_test_mode__"
  const MaxProcessingMethod := "mpm"
  const IgnoreInvalidBytecode := "iib"
  const BytecodeSourceMapping := "bsm"
  const Threads := "thr"
  const IndentString := "ind"

  /** The `OPTIONS` table filled by the static block, for a machine with
      `processors` available processors. */
  function DefaultOptions(processors: int): map<string, string> {
    map[
      AsciiStringCharacters := True,
      DecompileGenericSignatures := True,
      DecompileInner := True,
      IncludeEntireClasspath := True,
      RemoveBridge := True,
      RemoveSynthetic := True,
      LiteralsAsIs := False,
      UnitTestMode := False,
      MaxProcessingMethod := False,
      IgnoreInvalidBytecode := True,
      BytecodeSourceMapping := True,
      Threads := IntToString(processors - 1),
      IndentString := "    "
    ]
  }

  /** The defaults turn bytecode-to-source mapping on, and the thread
      count is the decimal form of one less than the processor count. */
  lemma DefaultsEnableMapping(processors: int)
    requires processors >= 1
    ensures DefaultOptions(processors)[BytecodeSourceMapping] == "1"
    ensures var t := DefaultOptions(processors)[Threads];
      (forall i :: 0 <= i < |t| ==> IsDigit(t[i])) && DigitsValue(t) == processors - 1
    ensures DefaultOptions(processors)[IndentString] == "    "
  {
    DigitsRoundTrip(processors - 1);
  }

  /** The `ffArgs` loop of `execute`: start from the user's options and
      `putIfAbsent` every default. */
  method MergeOptions(user: map<string, string>, defaults: map<string, string>) returns (ff: map<string, string>)
    ensures forall k :: k in ff <==> k in user || k in defaults
    ensures forall k :: k in user ==> ff[k] == user[k]
    ensures forall k :: k in defaults && k !in user ==> ff[k] == defaults[k]
  {
    ff := user;
    var remaining := defaults.Keys;
    while remaining != {}
      invariant remaining <= defaults.Keys
      invariant forall k :: k in ff <==> k in user || (k in defaults && k !in remaining)
      invariant forall k :: k in user ==> ff[k] == user[k]
      invariant forall k :: k in ff && k !in user ==> ff[k] == defaults[k]
      decreases remaining
    {
      var k :| k in remaining;
      if k !in ff {
        ff := ff[k := defaults[k]];
      }
      remaining := remaining - {k};
    }
  }

  /** A class Fernflower hands to the result saver: the arguments of
      `saveClassEntry` and the line mapping it has for the class. */
  datatype ClassUnit = ClassUnit(path: string, archiveName: string, qualifiedName: string, entryName: string,
                                 content: string, mapping: seq<int>)

  /** What the hook has done after a run of classes. */
  datatype RunState = RunState(files: map<string, Archive>, saves: seq<TextSave>, warnings: seq<Warning>,
                               escaped: Option<Exception>)

  /** One `saveClassEntry` call on the run so far; the mapping is passed
      only when `withMapping` holds. */
  function Step(r: RunState, disk: map<string, Archive>, codec: ClassCodec, source: string, u: ClassUnit,
                withMapping: bool): RunState
  {
    var saves := r.saves + [TextSave(u.path, u.archiveName, u.qualifiedName, u.entryName, u.content)];
    if !withMapping then RunState(r.files, saves, r.warnings, None)
    else
      var (files, end) := Patch(r.files, disk, codec, source, EntryName(u.qualifiedName), u.mapping);
      match end
      case Patched => RunState(files, saves, r.warnings, None)
      case Logged(c) => RunState(files, saves, r.warnings + [Warning(u.entryName, u.archiveName, c)], None)
      case Escaped(c) => RunState(files, saves, r.warnings, Some(c))
  }

  /** `decompileContext` as far as the hook sees it: the classes in order,
      stopping at the first exception that escapes the hook, on a store
      that already holds the handles `start`. */
  function Run(disk: map<string, Archive>, codec: ClassCodec, source: string, start: map<string, Archive>,
               units: seq<ClassUnit>, withMapping: bool): RunState
  {
    if units == [] then RunState(start, [], [], None)
    else
      var r := Run(disk, codec, source, start, units[..|units| - 1], withMapping);
      if r.escaped.Some? then r else Step(r, disk, codec, source, units[|units| - 1], withMapping)
  }

  lemma {:induction false} RunEscapePersists(disk: map<string, Archive>, codec: ClassCodec, source: string,
                                             start: map<string, Archive>, units: seq<ClassUnit>,
                                             withMapping: bool, i: nat)
    requires i <= |units| && Run(disk, codec, source, start, units[..i], withMapping).escaped.Some?
    ensures Run(disk, codec, source, start, units, withMapping) == Run(disk, codec, source, start, units[..i], withMapping)
    decreases |units| - i
  {
    if i < |units| {
      assert units[..i + 1][..i] == units[..i];
      RunEscapePersists(disk, codec, source, start, units, withMapping, i + 1);
    } else {
      assert units[..i] == units;
    }
  }

  /** Each `saveClassEntry` call adds exactly its own text save. */
  lemma StepSaves(r: RunState, disk: map<string, Archive>, codec: ClassCodec, source: string, u: ClassUnit,
                  withMapping: bool)
    ensures Step(r, disk, codec, source, u, withMapping).saves ==
      r.saves + [TextSave(u.path, u.archiveName, u.qualifiedName, u.entryName, u.content)]
  {
  }

  /** Every class reached gets its text save, in order; without an
      escaping exception all of them are reached. */
  lemma {:induction false} RunSavesInOrder(disk: map<string, Archive>, codec: ClassCodec, source: string,
                                           start: map<string, Archive>, units: seq<ClassUnit>, withMapping: bool)
    ensures var r := Run(disk, codec, source, start, units, withMapping);
      && |r.saves| <= |units|
      && (r.escaped.None? ==> |r.saves| == |units|)
      && forall i :: 0 <= i < |r.saves| ==>
           r.saves[i] == TextSave(units[i].path, units[i].archiveName, units[i].qualifiedName, units[i].entryName, units[i].content)
  {
    if units != [] {
      var init := units[..|units| - 1];
      var last := units[|units| - 1];
      RunSavesInOrder(disk, codec, source, start, init, withMapping);
      var before := Run(disk, codec, source, start, init, withMapping);
      assert forall i :: 0 <= i < |init| ==> init[i] == units[i];
      if before.escaped.None? {
        StepSaves(before, disk, codec, source, last, withMapping);
      }
    }
  }

  /** With mapping off, the hook never touches the byte store and never
      logs or throws. */
  lemma {:induction false} RunWithoutMapping(disk: map<string, Archive>, codec: ClassCodec, source: string,
                                             start: map<string, Archive>, units: seq<ClassUnit>)
    ensures var r := Run(disk, codec, source, start, units, false);
      r.files == start && r.warnings == [] && r.escaped.None?
  {
    if units != [] {
      RunWithoutMapping(disk, codec, source, start, units[..|units| - 1]);
    }
  }

  /** No class of `units` has `e` as its class entry. */
  predicate Unnamed(units: seq<ClassUnit>, e: string) {
    forall i :: 0 <= i < |units| ==> e != EntryName(units[i].qualifiedName)
  }

  /** Starting from handles opened from disk, the hook opens no archive but
      the source archive, keeps every handle it finds, and writes no entry of
      the source archive but the class entries of `units`: every other
      archive and every other entry keeps its bytes from disk. */
  lemma {:induction false} RunTouchesOnlySource(disk: map<string, Archive>, codec: ClassCodec, source: string,
                                                start: map<string, Archive>, units: seq<ClassUnit>, withMapping: bool)
    requires FromDisk(disk, start)
    ensures var run := Run(disk, codec, source, start, units, withMapping);
      && (forall p :: p in start ==> p in run.files)
      && (forall p :: p in run.files ==> p in disk && (p == source || p in start))
      && (forall p :: p in run.files && p != source ==> run.files[p] == disk[p])
      && (source in run.files ==> forall e :: Unnamed(units, e) ==>
            && (e in run.files[source] <==> e in disk[source])
            && (e in disk[source] ==> run.files[source][e] == disk[source][e]))
  {
    if units != [] {
      var init := units[..|units| - 1];
      var u := units[|units| - 1];
      RunTouchesOnlySource(disk, codec, source, start, init, withMapping);
      forall e | Unnamed(units, e)
        ensures Unnamed(init, e) && e != EntryName(u.qualifiedName)
      {
        assert forall i :: 0 <= i < |init| ==> init[i] == units[i];
      }
      var r := Run(disk, codec, source, start, init, withMapping);
      if r.escaped.None? {
        StepFiles(r, disk, codec, source, u, withMapping);
        if withMapping {
          PatchTouchesOnlyEntry(r.files, disk, codec, source, EntryName(u.qualifiedName), u.mapping);
        }
      }
    }
  }

  /** A step leaves the store as the patch of its class leaves it, or
      untouched with mapping off. */
  lemma StepFiles(r: RunState, disk: map<string, Archive>, codec: ClassCodec, source: string, u: ClassUnit,
                  withMapping: bool)
    ensures Step(r, disk, codec, source, u, withMapping).files ==
      if withMapping then Patch(r.files, disk, codec, source, EntryName(u.qualifiedName), u.mapping).0 else r.files
  {
  }

  /** After `execute`, the archive files are the ones on disk except the
      source archive, which holds what the hook left in the store when its
      close succeeds; no other archive changes, and with mapping off
      nothing changes at all. */
  lemma WriteBackOnlySource(disk: map<string, Archive>, codec: ClassCodec, source: string,
                            start: map<string, Archive>, units: seq<ClassUnit>, withMapping: bool,
                            fails: string -> Option<string>)
    requires FromDisk(disk, start)
    ensures var run := Run(disk, codec, source, start, units, withMapping);
      var after := Flushed(disk, run.files, fails);
      && after.Keys == disk.Keys
      && (forall p :: p in disk && p != source ==> after[p] == disk[p])
      && (source in disk ==>
            after[source] == if source in run.files && fails(source).None? then run.files[source] else disk[source])
      && (!withMapping ==> after == disk)
  {
    var run := Run(disk, codec, source, start, units, withMapping);
    RunTouchesOnlySource(disk, codec, source, start, units, withMapping);
    FlushedKeepsOthers(disk, run.files, fails, source);
    if !withMapping {
      RunWithoutMapping(disk, codec, source, start, units);
      FlushedFromDisk(disk, run.files, fails);
    }
  }

  /** The end-to-end result for one class: when its entry is in the source
      jar, parses, its mapping has even length and the jar closes cleanly,
      the jar on disk afterwards holds the line-remapped class in place of
      the original entry, and every other entry as before. */
  lemma OneClassWrittenBack(disk: map<string, Archive>, codec: ClassCodec, source: string,
                            start: map<string, Archive>, u: ClassUnit, fails: string -> Option<string>)
    requires FromDisk(disk, start)
    requires source in disk && EntryName(u.qualifiedName) in disk[source]
    requires var bytes := disk[source][EntryName(u.qualifiedName)];
      codec.header(bytes) && codec.parse(bytes).Some? && |u.mapping| % 2 == 0
    requires fails(source).None?
    ensures var entry := EntryName(u.qualifiedName);
      var c := codec.parse(disk[source][entry]).value;
      Flushed(disk, Run(disk, codec, source, start, [u], true).files, fails)[source] ==
        disk[source][entry := codec.serialize(RemapClass(c, TableOf(u.mapping)))]
  {
    var entry := EntryName(u.qualifiedName);
    assert [u][..0] == [];
    var empty := RunState(start, [], [], None);
    assert Run(disk, codec, source, start, [u], true) == Step(empty, disk, codec, source, u, true);
    assert Opened(start, disk, source)[source] == disk[source];
    PatchedEntryIsRemapped(start, disk, codec, source, entry, u.mapping);
    WriteBackOnlySource(disk, codec, source, start, [u], true, fails);
  }

  /** How `execute` ends for the caller: an exception that escapes the
      hook propagates, carrying the close failure (if any) as suppressed. */
  datatype Escape = Escape(cause: Exception, suppressed: Option<Thrown>)

  /** The worker's own log and lifecycle steps. */
  datatype Event = Decompiled | ContextCleared | StoreClosed | DecompileFailed(error: Thrown)

  /** The run over one more class is one more step, unless an exception
      has already escaped. */
  lemma RunSnoc(disk: map<string, Archive>, codec: ClassCodec, source: string, start: map<string, Archive>,
                units: seq<ClassUnit>, withMapping: bool, i: nat)
    requires i < |units|
    ensures var before := Run(disk, codec, source, start, units[..i], withMapping);
      Run(disk, codec, source, start, units[..i + 1], withMapping) ==
        if before.escaped.Some? then before else Step(before, disk, codec, source, units[i], withMapping)
  {
    assert units[..i + 1][..i] == units[..i];
  }

  /** The saver and its store hold what the run `r` has done. */
  ghost predicate Mirrors(saver: LineMappingResultSaver, r: RunState)
    reads saver, saver.provider
  {
    saver.provider.files == r.files && saver.saves == r.saves && saver.warnings == r.warnings
  }

  /** One `saveClassEntry` call made by the decompiler for `u`: the hook's
      state afterwards is one `Step` on its state before. */
  method SaveUnit(saver: LineMappingResultSaver, disk: map<string, Archive>, codec: ClassCodec,
                  u: ClassUnit, withMapping: bool)
    returns (escaped: Option<Exception>)
    modifies saver, saver.provider
    ensures var s := Step(RunState(old(saver.provider.files), old(saver.saves), old(saver.warnings), None),
                          disk, codec, saver.source, u, withMapping);
      Mirrors(saver, s) && escaped == s.escaped
  {
    var mapping := if withMapping then Some(u.mapping) else None;
    escaped := saver.SaveClassEntry(disk, codec, u.path, u.archiveName, u.qualifiedName, u.entryName, u.content, mapping);
  }

  /** The hook call for the next class, `units[i]`, extends the run by one
      class. */
  method SaveNext(saver: LineMappingResultSaver, disk: map<string, Archive>, codec: ClassCodec,
                  start: map<string, Archive>, units: seq<ClassUnit>, withMapping: bool, i: nat)
    returns (escaped: Option<Exception>)
    requires i < |units|
    requires Mirrors(saver, Run(disk, codec, saver.source, start, units[..i], withMapping))
    requires Run(disk, codec, saver.source, start, units[..i], withMapping).escaped.None?
    modifies saver, saver.provider
    ensures var run := Run(disk, codec, saver.source, start, units[..i + 1], withMapping);
      Mirrors(saver, run) && escaped == run.escaped
  {
    ghost var before := Run(disk, codec, saver.source, start, units[..i], withMapping);
    RunSnoc(disk, codec, saver.source, start, units, withMapping, i);
    escaped := SaveUnit(saver, disk, codec, units[i], withMapping);
    assert Run(disk, codec, saver.source, start, units[..i + 1], withMapping) ==
      Step(before, disk, codec, saver.source, units[i], withMapping);
  }

  /** `decompileContext` driving the hook: `saveClassEntry` for each
      class in turn, until an exception escapes. */
  method RunClasses(saver: LineMappingResultSaver, disk: map<string, Archive>, codec: ClassCodec,
                    start: map<string, Archive>, units: seq<ClassUnit>, withMapping: bool)
    returns (escaped: Option<Exception>)
    requires saver.provider.files == start && saver.saves == [] && saver.warnings == []
    modifies saver, saver.provider
    ensures var run := Run(disk, codec, saver.source, start, units, withMapping);
      Mirrors(saver, run) && escaped == run.escaped
  {
    var i := 0;
    while i < |units|
      invariant 0 <= i <= |units|
      invariant Mirrors(saver, Run(disk, codec, saver.source, start, units[..i], withMapping))
      invariant Run(disk, codec, saver.source, start, units[..i], withMapping).escaped.None?
    {
      var e := SaveNext(saver, disk, codec, start, units, withMapping, i);
      if e.Some? {
        RunEscapePersists(disk, codec, saver.source, start, units, withMapping, i + 1);
        return e;
      }
      i := i + 1;
    }
    assert units[..i] == units;
    return None;
  }

  /** The handles the store holds when the hook starts: the decompiler's
      loaded archives, and nothing else; with mapping on, also the source
      archive as the hook opens it; with mapping off, nothing more. */
  lemma LoadedHandlesClosed(disk: map<string, Archive>, codec: ClassCodec, source: string, loaded: seq<string>,
                            units: seq<ClassUnit>, withMapping: bool)
    ensures var run := Run(disk, codec, source, OpenedAll(disk, loaded), units, withMapping);
      && (forall p :: p in loaded && p in disk ==> p in run.files)
      && (forall p :: p in run.files ==> p in disk && (p in loaded || p == source))
      && (!withMapping ==> forall p :: p in run.files <==> p in loaded && p in disk)
  {
    var start := OpenedAll(disk, loaded);
    RunTouchesOnlySource(disk, codec, source, start, units, withMapping);
    if !withMapping {
      RunWithoutMapping(disk, codec, source, start, units);
    }
  }

  /** Opening one more archive is one more `zipFile`. */
  lemma OpenedAllSnoc(disk: map<string, Archive>, paths: seq<string>, i: nat)
    requires i < |paths|
    ensures OpenedAll(disk, paths[..i + 1]) == Opened(OpenedAll(disk, paths[..i]), disk, paths[i])
  {
    assert paths[..i + 1][..i] == paths[..i];
  }

  /** The decompiler's class reads: one `zipFile` per archive in `loaded`,
      in order, on a fresh store. */
  method OpenLoaded(store: ByteCodeProvider, disk: map<string, Archive>, loaded: seq<string>)
    requires store.files == map[]
    modifies store
    ensures store.files == OpenedAll(disk, loaded)
  {
    var i := 0;
    while i < |loaded|
      invariant 0 <= i <= |loaded|
      invariant store.files == OpenedAll(disk, loaded[..i])
    {
      OpenedAllSnoc(disk, loaded, i);
      var _ := store.ZipFile(disk, loaded[i]);
      i := i + 1;
    }
    assert loaded[..i] == loaded;
  }

  /** The body of the try-with-resources in `execute()`. The decompiler
      shares the byte store with the hook: its class reads open the
      archives `loaded` through `zipFile`, in order of first use. Then the
      hook runs over the decompiled classes, the context is cleared in
      every case, the store is closed once (which writes the patched source
      archive back), and a close failure is logged unless a runtime
      exception is already propagating. */
  method Decompile(input: string, output: string, disk: map<string, Archive>, codec: ClassCodec,
                   loaded: seq<string>, units: seq<ClassUnit>, withMapping: bool, fails: string -> Option<string>)
    returns (saver: LineMappingResultSaver, attempted: seq<string>, flushed: map<string, Archive>,
             events: seq<Event>, escape: Option<Escape>)
    ensures fresh(saver) && fresh(saver.provider)
    ensures saver.source == input && saver.target == output
    ensures saver.provider.files == map[]
    ensures var run := Run(disk, codec, input, OpenedAll(disk, loaded), units, withMapping);
      saver.saves == run.saves && saver.warnings == run.warnings && (forall p :: p in run.files <==> p in attempted)
    ensures forall p :: p in loaded && p in disk ==> p in attempted
    ensures forall p :: p in attempted ==> p in disk && (p in loaded || p == input)
    ensures !withMapping ==> forall p :: p in attempted <==> p in loaded && p in disk
    ensures flushed == Flushed(disk, Run(disk, codec, input, OpenedAll(disk, loaded), units, withMapping).files, fails)
    ensures var run := Run(disk, codec, input, OpenedAll(disk, loaded), units, withMapping);
      run.escaped.Some? ==>
        events == [ContextCleared, StoreClosed] &&
        escape == Some(Escape(run.escaped.value, Aggregate(CloseFailures(attempted, fails))))
    ensures var run := Run(disk, codec, input, OpenedAll(disk, loaded), units, withMapping);
      run.escaped.None? ==>
        && escape.None?
        && events == [Decompiled, ContextCleared, StoreClosed] +
             (match Aggregate(CloseFailures(attempted, fails))
              case None => []
              case Some(t) => [DecompileFailed(t)])
  {
    var store := new ByteCodeProvider();
    saver := new LineMappingResultSaver(input, output, store);
    OpenLoaded(store, disk, loaded);
    var start := OpenedAll(disk, loaded);
    LoadedHandlesClosed(disk, codec, input, loaded, units, withMapping);
    var escaped := RunClasses(saver, disk, codec, start, units, withMapping);
    events := if escaped.None? then [Decompiled] else [];
    events := events + [ContextCleared];
    var thrown;
    thrown, attempted, flushed := store.Close(disk, fails);
    events := events + [StoreClosed];
    if escaped.Some? {
      escape := Some(Escape(escaped.value, thrown));
    } else {
      escape := None;
      if thrown.Some? {
        events := events + [DecompileFailed(thrown.value)];
      }
    }
  }

  /** `execute()`: merge the options with the user's taking priority, then
      decompile with mapping on exactly when the merged `bsm` option is "1". */
  method Execute(extraArgs: map<string, string>, processors: int, input: string, output: string,
                 disk: map<string, Archive>, codec: ClassCodec, loaded: seq<string>, units: seq<ClassUnit>,
                 fails: string -> Option<string>)
    returns (options: map<string, string>, saver: LineMappingResultSaver, attempted: seq<string>,
             flushed: map<string, Archive>, events: seq<Event>, escape: Option<Escape>)
    ensures forall k :: k in options <==> k in extraArgs || k in DefaultOptions(processors)
    ensures forall k :: k in extraArgs ==> options[k] == extraArgs[k]
    ensures forall k :: k in DefaultOptions(processors) && k !in extraArgs ==> options[k] == DefaultOptions(processors)[k]
    ensures fresh(saver) && fresh(saver.provider)
    ensures saver.source == input && saver.target == output
    ensures saver.provider.files == map[]
    ensures var run := Run(disk, codec, input, OpenedAll(disk, loaded), units, options[BytecodeSourceMapping] == True);
      saver.saves == run.saves && saver.warnings == run.warnings && (forall p :: p in run.files <==> p in attempted)
    ensures forall p :: p in loaded && p in disk ==> p in attempted
    ensures forall p :: p in attempted ==> p in disk && (p in loaded || p == input)
    ensures options[BytecodeSourceMapping] != True ==> forall p :: p in attempted <==> p in loaded && p in disk
    ensures flushed == Flushed(disk, Run(disk, codec, input, OpenedAll(disk, loaded), units, options[BytecodeSourceMapping] == True).files, fails)
    ensures var run := Run(disk, codec, input, OpenedAll(disk, loaded), units, options[BytecodeSourceMapping] == True);
      run.escaped.Some? ==>
        events == [ContextCleared, StoreClosed] &&
        escape == Some(Escape(run.escaped.value, Aggregate(CloseFailures(attempted, fails))))
    ensures var run := Run(disk, codec, input, OpenedAll(disk, loaded), units, options[BytecodeSourceMapping] == True);
      run.escaped.None? ==>
        && escape.None?
        && events == [Decompiled, ContextCleared, StoreClosed] +
             (match Aggregate(CloseFailures(attempted, fails))
              case None => []
              case Some(t) => [DecompileFailed(t)])
  {
    var defaults := DefaultOptions(processors);
    options := MergeOptions(extraArgs, defaults);
    assert BytecodeSourceMapping in defaults;
    var withMapping := options[BytecodeSourceMapping] == True;
    saver, attempted, flushed, events, escape := Decompile(input, output, disk, codec, loaded, units, withMapping, fails);
  }

  /** Unless the user sets it, mapping is on, so every class the hook
      sees comes with a (possibly empty) mapping. */
  lemma MappingOnByDefault(extraArgs: map<string, string>, processors: int, options: map<string, string>)
    requires forall k :: k in options <==> k in extraArgs || k in DefaultOptions(processors)
    requires forall k :: k in extraArgs ==> options[k] == extraArgs[k]
    requires forall k :: k in DefaultOptions(processors) && k !in extraArgs ==> options[k] == DefaultOptions(processors)[k]
    ensures BytecodeSourceMapping in options
    ensures BytecodeSourceMapping !in extraArgs ==> options[BytecodeSourceMapping] == True
    ensures BytecodeSourceMapping in extraArgs ==> options[BytecodeSourceMapping] == extraArgs[BytecodeSourceMapping]
  {
    assert BytecodeSourceMapping in DefaultOptions(processors);
  }
}
