/** The launcher metadata of `version.json` (VersionJson.java): OS detection,
    allow/disallow rules, the allowed libraries, the platform's natives, the
    JVM arguments and the `Argument` deserializer. */
module VersionJson {
  import opened Base
  import opened Strings
  import opened JsonValue

  /** `OS`, in declaration order, with its name and the keys searched for
      in the lower-cased `os.name`. */
  datatype Os = Windows | Linux | Osx | Unknown {
    function Name(): string {
      match this
      case Windows => "windows"
      case Linux => "linux"
      case Osx => "osx"
      case Unknown => "unknown"
    }

    function Keys(): seq<string> {
      match this
      case Windows => ["win"]
      case Linux => ["linux", "unix"]
      case Osx => ["mac"]
      case Unknown => []
    }
  }

  /** `OS.values()`. */
  const Values: seq<Os> := [Windows, Linux, Osx, Unknown]

  /** One of the keys of `os` occurs in `prop`. */
  predicate HasKeyIn(prop: string, os: Os) {
    exists k :: k in os.Keys() && Contains(prop, k)
  }

  /** The first of `oses` with a key in `prop`, else UNKNOWN. */
  function FirstMatch(prop: string, oses: seq<Os>): Os {
    if oses == [] then Unknown
    else if HasKeyIn(prop, oses[0]) then oses[0]
    else FirstMatch(prop, oses[1..])
  }

  /** `OS.getCurrent()` for the given `os.name`. */
  function Current(osName: string): Os {
    FirstMatch(ToLower(osName), Values)
  }

  /** Detection takes the first OS in declaration order (WINDOWS, LINUX,
      OSX) with a key in the lower-cased name, and UNKNOWN when none has. */
  lemma CurrentIsFirstMatch(osName: string)
    ensures var prop, r := ToLower(osName), Current(osName);
      (r == Windows <==> HasKeyIn(prop, Windows)) &&
      (r == Linux <==> !HasKeyIn(prop, Windows) && HasKeyIn(prop, Linux)) &&
      (r == Osx <==> !HasKeyIn(prop, Windows) && !HasKeyIn(prop, Linux) && HasKeyIn(prop, Osx)) &&
      (r == Unknown <==> !HasKeyIn(prop, Windows) && !HasKeyIn(prop, Linux) && !HasKeyIn(prop, Osx))
  {
    var prop := ToLower(osName);
    assert Values[1..] == [Linux, Osx, Unknown];
    assert [Linux, Osx, Unknown][1..] == [Osx, Unknown];
    assert [Osx, Unknown][1..] == [Unknown];
    assert [Unknown][1..] == [];
    assert !HasKeyIn(prop, Unknown);
    assert FirstMatch(prop, [Unknown]) == Unknown;
    assert FirstMatch(prop, [Osx, Unknown]) == if HasKeyIn(prop, Osx) then Osx else Unknown;
    assert FirstMatch(prop, [Linux, Osx, Unknown]) == if HasKeyIn(prop, Linux) then Linux else FirstMatch(prop, [Osx, Unknown]);
    assert Current(osName) == if HasKeyIn(prop, Windows) then Windows else FirstMatch(prop, [Linux, Osx, Unknown]);
  }

  /** `OS.getCurrent()` as written: a loop over the constants and, inside
      it, over each constant's keys, returning at the first key found. */
  method GetCurrent(osName: string) returns (r: Os)
    ensures r == Current(osName)
  {
    var prop := ToLower(osName);
    var i := 0;
    while i < |Values|
      invariant 0 <= i <= |Values|
      invariant FirstMatch(prop, Values) == FirstMatch(prop, Values[i..])
    {
      var keys := Values[i].Keys();
      var j := 0;
      while j < |keys|
        invariant 0 <= j <= |keys|
        invariant forall l :: 0 <= l < j ==> !Contains(prop, keys[l])
      {
        if Contains(prop, keys[j]) {
          assert HasKeyIn(prop, Values[i]);
          return Values[i];
        }
        j := j + 1;
      }
      assert Values[i..][1..] == Values[i + 1..];
      i := i + 1;
    }
    return Unknown;
  }

  /** A lower-cased name with "win" anywhere is WINDOWS, since WINDOWS is
      tested first. */
  lemma WinKeyMeansWindows(prop: string, i: nat)
    requires i + 3 <= |prop| && prop[i..i + 3] == "win"
    ensures FirstMatch(prop, Values) == Windows
  {
    assert OccursAt("win", prop, i);
    assert Contains(prop, "win") && "win" in Windows.Keys();
  }

  /* The examples take the name as a parameter equal to the literal, which
     keeps the verifier from unfolding `ToLower` on the whole literal. */

  lemma DetectsWindows(osName: string)
    requires osName == "Windows 10"
    ensures Current(osName) == Windows
  {
    var w := ToLower(osName);
    assert w[0] == 'w' && w[1] == 'i' && w[2] == 'n';
    assert w[0..3] == "win";
    WinKeyMeansWindows(w, 0);
  }

  /** "Darwin" contains "win", so it is taken for WINDOWS. */
  lemma DarwinIsWindows(osName: string)
    requires osName == "Darwin"
    ensures Current(osName) == Windows
  {
    var d := ToLower(osName);
    assert d[3] == 'w' && d[4] == 'i' && d[5] == 'n';
    assert d[3..6] == "win";
    WinKeyMeansWindows(d, 3);
  }

  lemma DetectsLinux(osName: string)
    requires osName == "Linux"
    ensures Current(osName) == Linux
  {
    var l := ToLower(osName);
    assert l[0] == 'l' && l[1] == 'i' && l[2] == 'n' && l[3] == 'u' && l[4] == 'x';
    assert OccursAt("linux", l, 0);
    assert Contains(l, "linux") && "linux" in Linux.Keys();
    assert HasKeyIn(l, Linux);
    MissingChar(l, "win", 'w');
    assert !HasKeyIn(l, Windows);
    CurrentIsFirstMatch(osName);
  }

  /** No key of `os` occurs in a name lacking a character all its keys have. */
  lemma NoKeyWithout(prop: string, os: Os, c: char)
    requires forall k :: k in os.Keys() ==> c in k
    requires c !in prop
    ensures !HasKeyIn(prop, os)
  {
    forall k | k in os.Keys() ensures !Contains(prop, k) {
      MissingChar(prop, k, c);
    }
  }

  lemma DetectsOsx(osName: string)
    requires osName == "Mac OS X"
    ensures Current(osName) == Osx
  {
    var m := ToLower(osName);
    assert m[0] == 'm' && m[1] == 'a' && m[2] == 'c';
    assert m[0..3] == "mac";
    assert OccursAt("mac", m, 0);
    assert Contains(m, "mac") && "mac" in Osx.Keys();
    assert HasKeyIn(m, Osx);
    assert forall i :: 0 <= i < |m| ==> m[i] != 'n';
    NoKeyWithout(m, Windows, 'n');
    NoKeyWithout(m, Linux, 'n');
    CurrentIsFirstMatch(osName);
  }

  /** `OsCondition`: each field may be absent. */
  datatype OsCondition = OsCondition(name: Option<string>, version: Option<string>, arch: Option<string>)

  /** `Rule`: an action ("allow" or anything else) and an optional OS condition. */
  datatype Rule = Rule(action: string, os: Option<OsCondition>)

  /** What rules are evaluated against: `os.name`, and whether a regular
      expression, given as its pattern, finds a match in `os.version` and
      in `os.arch`. */
  datatype Env = Env(osName: string, versionFinds: string -> bool, archFinds: string -> bool)

  predicate NameMatches(c: OsCondition, env: Env) {
    c.name.None? || Current(env.osName).Name() == c.name.value
  }

  predicate VersionMatches(c: OsCondition, env: Env) {
    c.version.None? || env.versionFinds(c.version.value)
  }

  predicate ArchMatches(c: OsCondition, env: Env) {
    c.arch.None? || env.archFinds(c.arch.value)
  }

  /** `platformMatches`: name, version and arch all match; an absent field matches. */
  predicate PlatformMatches(c: OsCondition, env: Env) {
    NameMatches(c, env) && VersionMatches(c, env) && ArchMatches(c, env)
  }

  /** `allowsAction`: "condition absent or matching" equals "action is allow". */
  predicate AllowsAction(r: Rule, env: Env) {
    (r.os.None? || PlatformMatches(r.os.value, env)) == (r.action == "allow")
  }

  /** `isAllowed`: no rules at all, or every rule allows. */
  predicate Allowed(rules: Option<seq<Rule>>, env: Env) {
    rules.None? || forall i :: 0 <= i < |rules.value| ==> AllowsAction(rules.value[i], env)
  }

  /** `RuledObject.isAllowed` as written: a loop that returns false at the
      first rule that does not allow. */
  method IsAllowed(rules: Option<seq<Rule>>, env: Env) returns (r: bool)
    ensures r == Allowed(rules, env)
  {
    if rules.Some? {
      var rs := rules.value;
      var i := 0;
      while i < |rs|
        invariant 0 <= i <= |rs|
        invariant forall j :: 0 <= j < i ==> AllowsAction(rs[j], env)
      {
        if !AllowsAction(rs[i], env) {
          return false;
        }
        i := i + 1;
      }
    }
    return true;
  }

  /** An "allow" rule allows exactly where its condition is absent or
      matches; any other action allows exactly where a condition is given
      and does not match. */
  lemma AllowsActionCases(r: Rule, env: Env)
    ensures r.action == "allow" ==> (AllowsAction(r, env) <==> r.os.None? || PlatformMatches(r.os.value, env))
    ensures r.action != "allow" ==> (AllowsAction(r, env) <==> r.os.Some? && !PlatformMatches(r.os.value, env))
  {
  }

  /** A rule list is allowed exactly when both of its parts are. */
  lemma AllowedConcat(a: seq<Rule>, b: seq<Rule>, env: Env)
    ensures Allowed(Some(a + b), env) <==> Allowed(Some(a), env) && Allowed(Some(b), env)
  {
    assert forall i :: 0 <= i < |a| ==> (a + b)[i] == a[i];
    assert forall i :: 0 <= i < |b| ==> (a + b)[|a| + i] == b[i];
  }

  /** The usual pair "allow, then disallow on `name`" admits exactly the
      platforms whose detected name differs. */
  lemma AllowExceptOn(name: string, env: Env)
    ensures Allowed(Some([Rule("allow", None), Rule("disallow", Some(OsCondition(Some(name), None, None)))]), env)
      <==> Current(env.osName).Name() != name
  {
    var rs := [Rule("allow", None), Rule("disallow", Some(OsCondition(Some(name), None, None)))];
    assert AllowsAction(rs[0], env);
    assert AllowsAction(rs[1], env) <==> Current(env.osName).Name() != name;
  }

  /** A single "allow on `name`" rule admits exactly that platform. */
  lemma OnlyOn(name: string, env: Env)
    ensures Allowed(Some([Rule("allow", Some(OsCondition(Some(name), None, None)))]), env)
      <==> Current(env.osName).Name() == name
  {
    var rs := [Rule("allow", Some(OsCondition(Some(name), None, None)))];
    assert AllowsAction(rs[0], env) <==> Current(env.osName).Name() == name;
  }

  /** `Argument`: optional rules and the argument strings. */
  datatype Argument = Argument(rules: Option<seq<Rule>>, value: seq<string>)

  /** `Arguments`: the game arguments and the optional JVM arguments. */
  datatype Arguments = Arguments(game: seq<Argument>, jvm: Option<seq<Argument>>)

  /** A string with a space is wrapped in double quotes. */
  function Quote(s: string): string {
    if ' ' in s then "\"" + s + "\"" else s
  }

  /** Quoting keeps the string, adding the quotes exactly when it has a space. */
  lemma QuoteShape(s: string)
    ensures ' ' in s ==> |Quote(s)| == |s| + 2 && Quote(s)[0] == '"' && Quote(s)[|s| + 1] == '"' && Quote(s)[1..|s| + 1] == s
    ensures ' ' !in s ==> Quote(s) == s
    ensures ' ' in Quote(s) <==> ' ' in s
  {
    if ' ' in s {
      var i :| 0 <= i < |s| && s[i] == ' ';
      assert Quote(s)[i + 1] == ' ';
    }
  }

  function QuoteAll(vs: seq<string>): (r: seq<string>)
    ensures |r| == |vs| && forall i :: 0 <= i < |vs| ==> r[i] == Quote(vs[i])
  {
    if vs == [] then [] else [Quote(vs[0])] + QuoteAll(vs[1..])
  }

  /** An argument contributes when it has rules and they allow. */
  predicate Contributes(a: Argument, env: Env) {
    a.rules.Some? && Allowed(a.rules, env)
  }

  /** The quoted values of the contributing arguments, flattened in order. */
  function JvmArgs(args: seq<Argument>, env: Env): seq<string> {
    if args == [] then []
    else (if Contributes(args[0], env) then QuoteAll(args[0].value) else []) + JvmArgs(args[1..], env)
  }

  /** `getPlatformJvmArgs`: empty when `arguments` or `jvm` is null. */
  function PlatformJvmArgs(arguments: Option<Arguments>, env: Env): seq<string> {
    if arguments.None? || arguments.value.jvm.None? then [] else JvmArgs(arguments.value.jvm.value, env)
  }

  /** Flattening distributes over concatenation of the argument list. */
  lemma {:induction false} JvmArgsConcat(a: seq<Argument>, b: seq<Argument>, env: Env)
    ensures JvmArgs(a + b, env) == JvmArgs(a, env) + JvmArgs(b, env)
  {
    if a == [] {
      assert a + b == b;
    } else {
      assert (a + b)[0] == a[0];
      assert (a + b)[1..] == a[1..] + b;
      JvmArgsConcat(a[1..], b, env);
    }
  }

  /** A string is produced exactly when it is the quoted form of a value of
      a contributing argument. */
  lemma {:induction false} JvmArgsMembers(args: seq<Argument>, env: Env, s: string)
    ensures s in JvmArgs(args, env) <==>
      exists i, j :: 0 <= i < |args| && Contributes(args[i], env) && 0 <= j < |args[i].value| && s == Quote(args[i].value[j])
  {
    if args != [] {
      JvmArgsMembers(args[1..], env, s);
      var head := if Contributes(args[0], env) then QuoteAll(args[0].value) else [];
      assert s in JvmArgs(args, env) <==> s in head || s in JvmArgs(args[1..], env);
      if s in JvmArgs(args[1..], env) {
        var i, j :| 0 <= i < |args[1..]| && Contributes(args[1..][i], env) && 0 <= j < |args[1..][i].value| && s == Quote(args[1..][i].value[j]);
        assert args[i + 1] == args[1..][i];
      }
      if s in head {
        var j :| 0 <= j < |head| && head[j] == s;
        assert Contributes(args[0], env) && s == Quote(args[0].value[j]);
      }
      if exists i, j :: 0 <= i < |args| && Contributes(args[i], env) && 0 <= j < |args[i].value| && s == Quote(args[i].value[j]) {
        var i, j :| 0 <= i < |args| && Contributes(args[i], env) && 0 <= j < |args[i].value| && s == Quote(args[i].value[j]);
        if i == 0 {
          assert head[j] == s;
        } else {
          assert args[1..][i - 1] == args[i];
        }
      }
    }
  }
  /** `getPlatformJvmArgs` returns the empty list when `arguments` or its
      `jvm` array is null, and otherwise exactly the quoted values of the
      `jvm` arguments that have rules and are allowed. */
  lemma PlatformJvmArgsMembers(arguments: Option<Arguments>, env: Env, s: string)
    ensures arguments.None? || arguments.value.jvm.None? ==> PlatformJvmArgs(arguments, env) == []
    ensures arguments.Some? && arguments.value.jvm.Some? ==>
      var args := arguments.value.jvm.value;
      (s in PlatformJvmArgs(arguments, env) <==>
        exists i, j :: 0 <= i < |args| && Contributes(args[i], env) && 0 <= j < |args[i].value| && s == Quote(args[i].value[j]))
  {
    if arguments.Some? && arguments.value.jvm.Some? {
      JvmArgsMembers(arguments.value.jvm.value, env, s);
    }
  }


  /** An argument without rules contributes nothing, although a rule-less
      object counts as allowed. */
  lemma RulelessArgumentDropped(a: Argument, env: Env)
    requires a.rules.None?
    ensures Allowed(a.rules, env) && JvmArgs([a], env) == []
  {
    assert [a][1..] == [];
  }

  /** A download of a library (`LibraryDownload`). */
  datatype LibraryDownload = LibraryDownload(path: string, sha1: string, size: int, url: string)

  /** `Downloads`: the classifier downloads and the main artifact, each optional. */
  datatype Downloads = Downloads(classifiers: Option<map<string, LibraryDownload>>, artifact: Option<LibraryDownload>)

  /** The group, name and version that `Artifact.from(name)` yields. */
  datatype Coordinates = Coordinates(group: string, name: string, version: string)

  /** `Library`: its name, the coordinates parsed from it, rules, the
      OS-name to classifier map of natives and the downloads. */
  datatype Library = Library(name: string, artifact: Coordinates, rules: Option<seq<Rule>>,
                             natives: Option<map<string, string>>, downloads: Option<Downloads>)

  /** `group:name:version`. */
  function ArtifactKey(c: Coordinates): string {
    c.group + ":" + c.name + ":" + c.version
  }

  /** The allowed libraries, in their original order. */
  function AllowedLibraries(libs: seq<Library>, env: Env): (r: seq<Library>)
    ensures |r| <= |libs|
    ensures forall x :: x in r ==> x in libs && Allowed(x.rules, env)
  {
    if libs == [] then []
    else
      var last := libs[|libs| - 1];
      AllowedLibraries(libs[..|libs| - 1], env) + (if Allowed(last.rules, env) then [last] else [])
  }

  /** A library is kept exactly when it is listed and allowed. */
  lemma {:induction false} AllowedLibrariesMembers(libs: seq<Library>, env: Env, x: Library)
    ensures x in AllowedLibraries(libs, env) <==> x in libs && Allowed(x.rules, env)
  {
    if libs != [] {
      var init := libs[..|libs| - 1];
      AllowedLibrariesMembers(init, env, x);
      assert libs == init + [libs[|libs| - 1]];
    }
  }

  /** Filtering keeps order: the filter of a concatenation is the
      concatenation of the filters. */
  lemma {:induction false} AllowedLibrariesConcat(a: seq<Library>, b: seq<Library>, env: Env)
    ensures AllowedLibraries(a + b, env) == AllowedLibraries(a, env) + AllowedLibraries(b, env)
    decreases |b|
  {
    if b == [] {
      assert a + b == a;
    } else {
      var init := b[..|b| - 1];
      assert (a + b)[..|a + b| - 1] == a + init;
      assert (a + b)[|a + b| - 1] == b[|b| - 1];
      AllowedLibrariesConcat(a, init, env);
    }
  }

  /** What one library adds to the natives: nothing, its classifier's
      download, or a NullPointerException when it has natives but no
      downloads. */
  function NativeOf(lib: Library, env: Env): Result<Option<LibraryDownload>> {
    if !Allowed(lib.rules, env) || lib.natives.None? then Ok(None)
    else if lib.downloads.None? then Err(NullPointer)
    else if lib.downloads.value.classifiers.None? then Ok(None)
    else
      var os := Current(env.osName).Name();
      var classifiers := lib.downloads.value.classifiers.value;
      if os !in lib.natives.value || lib.natives.value[os] !in classifiers then Ok(None)
      else Ok(Some(classifiers[lib.natives.value[os]]))
  }

  /** The map `getNatives` builds, keyed by `group:name:version`, read left
      to right. */
  function NativesOf(libs: seq<Library>, env: Env): Result<map<string, LibraryDownload>> {
    if libs == [] then Ok(map[])
    else
      var last := libs[|libs| - 1];
      match NativesOf(libs[..|libs| - 1], env)
      case Err(e) => Err(e)
      case Ok(m) =>
        match NativeOf(last, env)
        case Err(e) => Err(e)
        case Ok(None) => Ok(m)
        case Ok(Some(d)) => Ok(m[ArtifactKey(last.artifact) := d])
  }

  /** Library `i` of `libs` supplies a native download under key `k`. */
  predicate Supplies(libs: seq<Library>, env: Env, i: int, k: string) {
    0 <= i < |libs| && NativeOf(libs[i], env).Ok? && NativeOf(libs[i], env).value.Some? &&
    ArtifactKey(libs[i].artifact) == k
  }

  /** Building the natives fails, with a NullPointerException, exactly when
      some library fails. */
  lemma {:induction false} NativesFailure(libs: seq<Library>, env: Env)
    ensures NativesOf(libs, env).Err? <==> exists i :: 0 <= i < |libs| && NativeOf(libs[i], env).Err?
    ensures NativesOf(libs, env).Err? ==> NativesOf(libs, env).error == NullPointer
    ensures NativesOf(libs, env).Err? <==>
      exists i :: 0 <= i < |libs| && Allowed(libs[i].rules, env) && libs[i].natives.Some? && libs[i].downloads.None?
  {
    if libs != [] {
      var init := libs[..|libs| - 1];
      NativesFailure(init, env);
      if exists i :: 0 <= i < |init| && NativeOf(init[i], env).Err? {
        var i :| 0 <= i < |init| && NativeOf(init[i], env).Err?;
        assert libs[i] == init[i];
      }
      if exists i :: 0 <= i < |libs| && NativeOf(libs[i], env).Err? {
        var i :| 0 <= i < |libs| && NativeOf(libs[i], env).Err?;
        if i < |init| {
          assert init[i] == libs[i];
        }
      }
    }
  }

  lemma SuppliesInit(libs: seq<Library>, env: Env, i: int, k: string)
    requires 0 <= i < |libs| - 1
    ensures Supplies(libs, env, i, k) == Supplies(libs[..|libs| - 1], env, i, k)
  {
    assert libs[i] == libs[..|libs| - 1][i];
  }

  /** When building succeeds, a key is present exactly when some library
      supplies it. */
  lemma {:induction false} NativesKeys(libs: seq<Library>, env: Env, k: string)
    requires NativesOf(libs, env).Ok?
    ensures k in NativesOf(libs, env).value <==> exists i :: Supplies(libs, env, i, k)
  {
    if libs != [] {
      var n := |libs| - 1;
      var init := libs[..n];
      NativesKeys(init, env, k);
      if !Supplies(libs, env, n, k) {
        assert k in NativesOf(libs, env).value <==> k in NativesOf(init, env).value;
        if exists i :: Supplies(init, env, i, k) {
          var i :| Supplies(init, env, i, k);
          SuppliesInit(libs, env, i, k);
        }
        if exists i :: Supplies(libs, env, i, k) {
          var i :| Supplies(libs, env, i, k);
          SuppliesInit(libs, env, i, k);
        }
      }
    }
  }

  /** The download under a key is that of the last library supplying it:
      later libraries overwrite earlier ones. */
  lemma {:induction false} NativesLastWins(libs: seq<Library>, env: Env, k: string, i: int)
    requires NativesOf(libs, env).Ok?
    requires Supplies(libs, env, i, k)
    requires forall j :: i < j < |libs| ==> !Supplies(libs, env, j, k)
    ensures k in NativesOf(libs, env).value
    ensures NativesOf(libs, env).value[k] == NativeOf(libs[i], env).value.value
  {
    var n := |libs| - 1;
    var init := libs[..n];
    if i < n {
      assert !Supplies(libs, env, n, k);
      SuppliesInit(libs, env, i, k);
      forall j | i < j < |init| ensures !Supplies(init, env, j, k) {
        SuppliesInit(libs, env, j, k);
      }
      NativesLastWins(init, env, k, i);
      assert libs[i] == init[i];
    }
  }

  /** A failure in a prefix is the failure of the whole. */
  lemma {:induction false} NativesFailurePersists(libs: seq<Library>, env: Env, i: nat)
    requires i <= |libs| && NativesOf(libs[..i], env).Err?
    ensures NativesOf(libs, env) == NativesOf(libs[..i], env)
    decreases |libs| - i
  {
    if i < |libs| {
      assert libs[..i + 1][..i] == libs[..i];
      NativesFailurePersists(libs, env, i + 1);
    } else {
      assert libs[..i] == libs;
    }
  }

  /** The `Argument` deserializer's complaint about a missing field. */
  const CorruptArguments := "Error parsing arguments in version json. File is corrupt or its format has changed."

  function Malformed(what: string): Exception {
    JsonParse("malformed " + what)
  }

  /** An optional string field: absent or JSON null is None. */
  function DecodeOptString(fields: map<string, Json>, name: string): Result<Option<string>> {
    if name !in fields || fields[name].JNull? then Ok(None)
    else if fields[name].JPrim? then Ok(Some(fields[name].text))
    else Err(Malformed(name))
  }

  function DecodeOsCondition(j: Json): Result<OsCondition> {
    if !j.JObj? then Err(Malformed("os"))
    else
      match DecodeOptString(j.fields, "name")
      case Err(e) => Err(e)
      case Ok(name) =>
        match DecodeOptString(j.fields, "version")
        case Err(e) => Err(e)
        case Ok(version) =>
          match DecodeOptString(j.fields, "arch")
          case Err(e) => Err(e)
          case Ok(arch) => Ok(OsCondition(name, version, arch))
  }

  function DecodeRule(j: Json): Result<Rule> {
    if !j.JObj? || "action" !in j.fields || !j.fields["action"].JPrim? then Err(Malformed("rule"))
    else if "os" !in j.fields || j.fields["os"].JNull? then Ok(Rule(j.fields["action"].text, None))
    else
      match DecodeOsCondition(j.fields["os"])
      case Err(e) => Err(e)
      case Ok(c) => Ok(Rule(j.fields["action"].text, Some(c)))
  }

  function DecodeRules(items: seq<Json>): Result<seq<Rule>> {
    if items == [] then Ok([])
    else
      match DecodeRule(items[0])
      case Err(e) => Err(e)
      case Ok(r) =>
        match DecodeRules(items[1..])
        case Err(e) => Err(e)
        case Ok(rs) => Ok([r] + rs)
  }

  /** `GSON.fromJson(rules, Rule[].class)`: JSON null gives null. */
  function DecodeRuleArray(j: Json): Result<Option<seq<Rule>>> {
    match j
    case JNull => Ok(None)
    case JArr(items) =>
      (match DecodeRules(items)
       case Err(e) => Err(e)
       case Ok(rs) => Ok(Some(rs)))
    case _ => Err(Malformed("rules"))
  }

  function DecodeStrings(items: seq<Json>): Result<seq<string>> {
    if items == [] then Ok([])
    else if !items[0].JPrim? then Err(Malformed("value"))
    else
      match DecodeStrings(items[1..])
      case Err(e) => Err(e)
      case Ok(ss) => Ok([items[0].text] + ss)
  }

  /** A primitive `value` is a singleton list; an array is read as a list. */
  function DecodeValue(j: Json): Result<seq<string>> {
    match j
    case JPrim(t) => Ok([t])
    case JArr(items) => DecodeStrings(items)
    case _ => Err(Malformed("value"))
  }

  /** `Argument.Deserializer.deserialize`. */
  function DeserializeArgument(j: Json): (r: Result<Argument>)
    ensures j.JPrim? ==> r == Ok(Argument(None, [j.text]))
    ensures j.JNull? || j.JArr? ==> r.Err? && r.error.IllegalState?
    ensures j.JObj? && ("rules" !in j.fields || "value" !in j.fields) ==> r == Err(JsonParse(CorruptArguments))
  {
    match j
    case JPrim(t) => Ok(Argument(None, [t]))
    case JNull => Err(IllegalState("Not a JSON Object: null"))
    case JArr(_) => Err(IllegalState("Not a JSON Object"))
    case JObj(fields) =>
      if "rules" !in fields || "value" !in fields then Err(JsonParse(CorruptArguments))
      else
        match DecodeRuleArray(fields["rules"])
        case Err(e) => Err(e)
        case Ok(rules) =>
          match DecodeValue(fields["value"])
          case Err(e) => Err(e)
          case Ok(value) => Ok(Argument(rules, value))
  }

  function EncodeOptString(name: string, v: Option<string>): map<string, Json> {
    if v.Some? then map[name := JPrim(v.value)] else map[]
  }

  function EncodeOsCondition(c: OsCondition): Json {
    JObj(EncodeOptString("name", c.name) + EncodeOptString("version", c.version) + EncodeOptString("arch", c.arch))
  }

  function EncodeRule(r: Rule): Json {
    JObj(map["action" := JPrim(r.action)] + (if r.os.Some? then map["os" := EncodeOsCondition(r.os.value)] else map[]))
  }

  function EncodeRules(rs: seq<Rule>): (r: seq<Json>)
    ensures |r| == |rs|
  {
    if rs == [] then [] else [EncodeRule(rs[0])] + EncodeRules(rs[1..])
  }

  function EncodeStrings(ss: seq<string>): seq<Json> {
    if ss == [] then [] else [JPrim(ss[0])] + EncodeStrings(ss[1..])
  }

  /** The JSON a launcher manifest writes for an argument: a bare string
      when it has no rules and one value, an object otherwise. */
  function EncodeArgument(a: Argument): Json {
    if a.rules.None? && |a.value| == 1 then JPrim(a.value[0])
    else JObj(map["rules" := (if a.rules.Some? then JArr(EncodeRules(a.rules.value)) else JNull),
                  "value" := JArr(EncodeStrings(a.value))])
  }

  lemma {:induction false} DecodeEncodedStrings(ss: seq<string>)
    ensures DecodeStrings(EncodeStrings(ss)) == Ok(ss)
  {
    if ss != [] {
      DecodeEncodedStrings(ss[1..]);
      assert EncodeStrings(ss)[1..] == EncodeStrings(ss[1..]);
      assert [ss[0]] + ss[1..] == ss;
    }
  }

  lemma DecodeEncodedRule(r: Rule)
    ensures DecodeRule(EncodeRule(r)) == Ok(r)
  {
    if r.os.Some? {
      var c := r.os.value;
      var f := EncodeOptString("name", c.name) + EncodeOptString("version", c.version) + EncodeOptString("arch", c.arch);
      assert DecodeOptString(f, "name") == Ok(c.name);
      assert DecodeOptString(f, "version") == Ok(c.version);
      assert DecodeOptString(f, "arch") == Ok(c.arch);
    }
  }

  lemma {:induction false} DecodeEncodedRules(rs: seq<Rule>)
    ensures DecodeRules(EncodeRules(rs)) == Ok(rs)
  {
    if rs != [] {
      DecodeEncodedRule(rs[0]);
      DecodeEncodedRules(rs[1..]);
      assert EncodeRules(rs)[0] == EncodeRule(rs[0]);
      assert EncodeRules(rs)[1..] == EncodeRules(rs[1..]);
      assert [rs[0]] + rs[1..] == rs;
    }
  }

  /** Deserializing the JSON form of an argument gives the argument back. */
  lemma DeserializeEncoded(a: Argument)
    ensures DeserializeArgument(EncodeArgument(a)) == Ok(a)
  {
    if !(a.rules.None? && |a.value| == 1) {
      DecodeEncodedStrings(a.value);
      if a.rules.Some? {
        DecodeEncodedRules(a.rules.value);
      }
    } else {
      assert [a.value[0]] == a.value;
    }
  }

  /** `VersionJson`: the parsed arguments and libraries, and the lazily
      filled `_natives` and `_libraries` caches. */
  class VersionJson {
    const arguments: Option<Arguments>
    const libraries: seq<Library>
    var nativesCache: Option<map<string, LibraryDownload>>
    var librariesCache: Option<seq<Library>>

    constructor (arguments: Option<Arguments>, libraries: seq<Library>)
      ensures this.arguments == arguments && this.libraries == libraries
      ensures nativesCache.None? && librariesCache.None?
    {
      this.arguments := arguments;
      this.libraries := libraries;
      nativesCache := None;
      librariesCache := None;
    }

    /** `getNatives`: computed on the first successful call and cached;
        a failure caches nothing. Later calls return the cached map even
        if the environment has changed. The list returned is the map's
        values, in no particular order. */
    method GetNatives(env: Env) returns (r: Result<map<string, LibraryDownload>>)
      modifies this
      ensures librariesCache == old(librariesCache)
      ensures old(nativesCache).Some? ==> r == Ok(old(nativesCache).value) && nativesCache == old(nativesCache)
      ensures old(nativesCache).None? ==> r == NativesOf(libraries, env)
      ensures old(nativesCache).None? ==> nativesCache == (if r.Ok? then Some(r.value) else None)
    {
      if nativesCache.Some? {
        return Ok(nativesCache.value);
      }
      var os := GetCurrent(env.osName);
      var natives: map<string, LibraryDownload> := map[];
      var i := 0;
      while i < |libraries|
        invariant 0 <= i <= |libraries|
        invariant NativesOf(libraries[..i], env) == Ok(natives)
        invariant nativesCache.None? && librariesCache == old(librariesCache)
      {
        var lib := libraries[i];
        assert libraries[..i + 1][..i] == libraries[..i];
        assert libraries[..i + 1][i] == lib;
        var allowed := IsAllowed(lib.rules, env);
        if allowed {
          var key := ArtifactKey(lib.artifact);
          if lib.natives.Some? {
            if lib.downloads.None? {
              NativesFailurePersists(libraries, env, i + 1);
              return Err(NullPointer);
            }
            var classifiers := lib.downloads.value.classifiers;
            if classifiers.Some? && os.Name() in lib.natives.value {
              var classifier := lib.natives.value[os.Name()];
              if classifier in classifiers.value {
                natives := natives[key := classifiers.value[classifier]];
              }
            }
          }
        }
        i := i + 1;
      }
      assert libraries[..i] == libraries;
      nativesCache := Some(natives);
      return Ok(natives);
    }

    /** `getLibraries`: the allowed libraries, computed once and cached. */
    method GetLibraries(env: Env) returns (r: seq<Library>)
      modifies this
      ensures nativesCache == old(nativesCache)
      ensures old(librariesCache).Some? ==> r == old(librariesCache).value && librariesCache == old(librariesCache)
      ensures old(librariesCache).None? ==> r == AllowedLibraries(libraries, env) && librariesCache == Some(r)
    {
      if librariesCache.None? {
        var kept: seq<Library> := [];
        var i := 0;
        while i < |libraries|
          invariant 0 <= i <= |libraries|
          invariant kept == AllowedLibraries(libraries[..i], env)
          invariant librariesCache.None? && nativesCache == old(nativesCache)
        {
          assert libraries[..i + 1][..i] == libraries[..i];
          var allowed := IsAllowed(libraries[i].rules, env);
          if allowed {
            kept := kept + [libraries[i]];
          }
          i := i + 1;
        }
        assert libraries[..i] == libraries;
        librariesCache := Some(kept);
      }
      return librariesCache.value;
    }
  }
}
