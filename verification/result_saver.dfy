/** The decompile result hook (LineMappingResultSaver.saveClassEntry): after
    the decompiled text is saved, a class with a line mapping has its
    compiled entry read from the SOURCE archive, remapped and written back. */
module ResultSaver {
  import opened Base
  import opened LineMapping
  import opened ByteStore

  /** The ASM `ClassReader`/`ClassWriter` pair, which this model does not
      implement. Parsing has two stages, as in ASM: `header` says whether
      `new ClassReader(bytes)` accepts the header and constant pool, and
      `parse` is `accept`, which reads the rest and yields None for bytes
      that are not a well-formed class; `serialize` writes a class back. */
  datatype ClassCodec = ClassCodec(header: seq<byte> -> bool, parse: seq<byte> -> Option<ClassFile>,
                                   serialize: ClassFile -> seq<byte>)

  /** One call of the superclass's text save (`SingleFileSaver.saveClassEntry`). */
  datatype TextSave = TextSave(path: string, archiveName: string, qualifiedName: string, entryName: string, content: string)

  /** A logged warning "Line mapping failed on {entry} in {archive}". */
  datatype Warning = Warning(entryName: string, archiveName: string, cause: Exception)

  /** How the read-remap-write of one class ends: written back, an
      IOException that is logged, or a runtime exception that escapes the
      hook (only `IOException` is caught). */
  datatype PatchEnd = Patched | Logged(cause: Exception) | Escaped(cause: Exception)

  /** The entry patched for a class: `qualifiedName + ".class"`. */
  function EntryName(qualifiedName: string): string {
    qualifiedName + ".class"
  }

  /** The byte store after patching `entry` of archive `source`, and how the
      patch ends. Reading opens (and caches) the source archive; a missing
      entry is an IOException; malformed bytes and an odd-length mapping are
      runtime exceptions, met in the source's order (the reader's header,
      then the visitor's table, then the rest of the class); the write goes
      to the same archive and entry. */
  function Patch(files: map<string, Archive>, disk: map<string, Archive>, codec: ClassCodec,
                 source: string, entry: string, mapping: seq<int>): (map<string, Archive>, PatchEnd)
  {
    var cache := Opened(files, disk, source);
    match ReadEntry(cache, source, entry)
    case Err(e) => (cache, Logged(e))
    case Ok(bytes) =>
      if !codec.header(bytes) then (cache, Escaped(IllegalArgument("malformed class header " + entry)))
      else if |mapping| % 2 == 1 then (cache, Escaped(IndexOutOfBounds(|mapping|)))
      else
        match codec.parse(bytes)
        case None => (cache, Escaped(IllegalArgument("malformed class " + entry)))
        case Some(c) => (cache[source := cache[source][entry := codec.serialize(RemapClass(c, TableOf(mapping)))]], Patched)
  }

  class LineMappingResultSaver {
    /** The original (pre-decompile) archive path given at construction. */
    const source: string
    /** The output file of the text save; never touched by the patch. */
    const target: string
    const provider: ByteCodeProvider
    /** The text saves made through the superclass, in call order. */
    var saves: seq<TextSave>
    var warnings: seq<Warning>

    constructor (source: string, target: string, provider: ByteCodeProvider)
      ensures this.source == source && this.target == target && this.provider == provider
      ensures saves == [] && warnings == []
    {
      this.source := source;
      this.target := target;
      this.provider := provider;
      saves := [];
      warnings := [];
    }

    /** `saveClassEntry`: the text save always happens; with a non-null
        mapping (even an empty one) the class entry is patched in the source
        archive; an IOException is logged and swallowed. The result is the
        exception that escapes, if any. */
    method SaveClassEntry(disk: map<string, Archive>, codec: ClassCodec, path: string, archiveName: string,
                          qualifiedName: string, entryName: string, content: string, mapping: Option<seq<int>>)
      returns (escaped: Option<Exception>)
      modifies this, provider
      ensures saves == old(saves) + [TextSave(path, archiveName, qualifiedName, entryName, content)]
      ensures mapping.None? ==> provider.files == old(provider.files) && warnings == old(warnings) && escaped.None?
      ensures mapping.Some? ==>
        var (files, end) := Patch(old(provider.files), disk, codec, source, EntryName(qualifiedName), mapping.value);
        && provider.files == files
        && (end.Logged? ==> warnings == old(warnings) + [Warning(entryName, archiveName, end.cause)] && escaped.None?)
        && (end.Escaped? ==> warnings == old(warnings) && escaped == Some(end.cause))
        && (end.Patched? ==> warnings == old(warnings) && escaped.None?)
    {
      saves := saves + [TextSave(path, archiveName, qualifiedName, entryName, content)];
      escaped := None;
      if mapping.Some? {
        var inputName := EntryName(qualifiedName);
        var clazz := provider.GetBytecode(disk, source, inputName);
        if clazz.Err? {
          warnings := warnings + [Warning(entryName, archiveName, clazz.error)];
          return;
        }
        if !codec.header(clazz.value) {
          return Some(IllegalArgument("malformed class header " + inputName));
        }
        var table := BuildTable(mapping.value);
        if table.Err? {
          return Some(table.error);
        }
        var parsed := codec.parse(clazz.value);
        if parsed.None? {
          return Some(IllegalArgument("malformed class " + inputName));
        }
        var output := codec.serialize(RemapClass(parsed.value, table.value));
        var written := provider.SetBytecode(disk, source, inputName, output);
        // The read has cached the source archive's handle, so in this model
        // the write that the IOException handler also covers cannot fail.
        assert written.Pass?;
      }
    }
  }

  /** A patch reads and writes only the source archive: every other archive
      keeps its handle (or its absence), and in the source archive every
      other entry keeps its bytes. */
  lemma PatchTouchesOnlyEntry(files: map<string, Archive>, disk: map<string, Archive>, codec: ClassCodec,
                              source: string, entry: string, mapping: seq<int>)
    ensures var after := Patch(files, disk, codec, source, entry, mapping).0;
      && (forall p :: p != source ==> (p in after <==> p in files) && (p in files ==> after[p] == files[p]))
      && (source in after <==> source in files || source in disk)
      && (source in after ==>
            var before := if source in files then files[source] else disk[source];
            forall e :: e != entry ==>
              && (e in after[source] <==> e in before)
              && (e in before ==> after[source][e] == before[e]))
  {
    var cache := Opened(files, disk, source);
    var (after, end) := Patch(files, disk, codec, source, entry, mapping);
    if end.Patched? {
      var c := codec.parse(cache[source][entry]).value;
      assert after == cache[source := cache[source][entry := codec.serialize(RemapClass(c, TableOf(mapping)))]];
    } else {
      assert after == cache;
    }
  }

  /** The patch succeeds exactly when the source archive opens, holds the
      entry, the entry parses and the mapping has even length; then the entry
      holds the line-remapped form of its previous bytes, and nothing else of
      the source archive changes. */
  lemma PatchedEntryIsRemapped(files: map<string, Archive>, disk: map<string, Archive>, codec: ClassCodec,
                               source: string, entry: string, mapping: seq<int>)
    ensures var cache := Opened(files, disk, source);
      Patch(files, disk, codec, source, entry, mapping).1.Patched? <==>
        && source in cache && entry in cache[source] && codec.header(cache[source][entry])
        && |mapping| % 2 == 0 && codec.parse(cache[source][entry]).Some?
    ensures var cache := Opened(files, disk, source);
      Patch(files, disk, codec, source, entry, mapping).1.Patched? ==>
        var c := codec.parse(cache[source][entry]).value;
        Patch(files, disk, codec, source, entry, mapping).0 ==
          cache[source := cache[source][entry := codec.serialize(RemapClass(c, TableOf(mapping)))]]
  {
    var cache := Opened(files, disk, source);
    var read := ReadEntry(cache, source, entry);
    assert read.Ok? <==> source in cache && entry in cache[source];
    if read.Ok? {
      assert read.value == cache[source][entry];
    }
  }

  /** The visitor's table is built before the rest of the class is read:
      once the header is accepted, an odd-length mapping escapes as an
      IndexOutOfBounds at its length, whether or not the body is well formed,
      and nothing is written. */
  lemma OddMappingBeforeBody(files: map<string, Archive>, disk: map<string, Archive>, codec: ClassCodec,
                             source: string, entry: string, mapping: seq<int>)
    requires var cache := Opened(files, disk, source);
      source in cache && entry in cache[source] && codec.header(cache[source][entry])
    requires |mapping| % 2 == 1
    ensures Patch(files, disk, codec, source, entry, mapping) ==
      (Opened(files, disk, source), Escaped(IndexOutOfBounds(|mapping|)))
  {
  }

  /** A failed read writes nothing: at most the source archive's handle has
      been cached, and the failure is an IOException that is logged. */
  lemma FailedReadWritesNothing(files: map<string, Archive>, disk: map<string, Archive>, codec: ClassCodec,
                                source: string, entry: string, mapping: seq<int>)
    requires ReadEntry(Opened(files, disk, source), source, entry).Err?
    ensures Patch(files, disk, codec, source, entry, mapping) ==
      (Opened(files, disk, source), Logged(ReadEntry(Opened(files, disk, source), source, entry).error))
    ensures Patch(files, disk, codec, source, entry, mapping).1.cause.IOException?
  {
  }

  /** A non-null empty mapping is still written back, through the identity
      line rewrite: when the codec reproduces the bytes it parsed, the entry
      keeps exactly its bytes. */
  lemma {:induction false} EmptyMappingRewritesIdentically(files: map<string, Archive>, disk: map<string, Archive>,
                                                           codec: ClassCodec, source: string, entry: string)
    requires var cache := Opened(files, disk, source);
      && source in cache && entry in cache[source]
      && codec.header(cache[source][entry]) && codec.parse(cache[source][entry]).Some?
      && codec.serialize(codec.parse(cache[source][entry]).value) == cache[source][entry]
    ensures var (after, end) := Patch(files, disk, codec, source, entry, []);
      end.Patched? && after == Opened(files, disk, source)
  {
    var cache := Opened(files, disk, source);
    var c := codec.parse(cache[source][entry]).value;
    EmptyMappingIsIdentity(c);
    assert cache[source][entry := cache[source][entry]] == cache[source];
  }
}
