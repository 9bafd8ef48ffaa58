/** Which Minecraft versions to generate (MinecraftSourceExtension.java):
    the version classifiers, the `from`/`after` range selection, the
    `fromFile`/`fromJson` lists and the incremental start point. */
module SourceExtension {
  import opened Base
  import opened Strings
  import opened JsonValue

  /** A parsed `MinecraftVersion`: its `toString` form and its `type` and
      `pre` fields. */
  datatype McVersion = McVersion(id: string, kind: string, pre: int)

  predicate IsRelease(v: McVersion) {
    EqualsIgnoreCase(v.kind, "release") && v.pre == 0
  }

  predicate IsPreRelease(v: McVersion) {
    EqualsIgnoreCase(v.kind, "release") && v.pre > 0
  }

  predicate IsReleaseCandidate(v: McVersion) {
    EqualsIgnoreCase(v.kind, "release") && v.pre < 0
  }

  predicate IsSnapshot(v: McVersion) {
    EqualsIgnoreCase(v.kind, "snapshot")
  }

  /** A version of type "release" is exactly one of a release, a
      pre-release and a release candidate; a snapshot is none of them. */
  lemma Classification(v: McVersion)
    ensures EqualsIgnoreCase(v.kind, "release") ==>
      (IsRelease(v) || IsPreRelease(v) || IsReleaseCandidate(v)) &&
      !(IsRelease(v) && IsPreRelease(v)) && !(IsRelease(v) && IsReleaseCandidate(v)) &&
      !(IsPreRelease(v) && IsReleaseCandidate(v))
    ensures IsSnapshot(v) ==> !IsRelease(v) && !IsPreRelease(v) && !IsReleaseCandidate(v)
  {
    if IsSnapshot(v) {
      assert |v.kind| == 8;
      assert !EqualsIgnoreCase(v.kind, "release");
    }
  }

  /** The case of the type does not matter. */
  lemma ClassificationIgnoresCase()
    ensures IsRelease(McVersion("1.20", "RELEASE", 0))
    ensures IsSnapshot(McVersion("23w31a", "Snapshot", 0))
  {
    assert "RELEASE"[0] == 'R';
  }

  /** The `filter` of a version stream: the kept versions, in order. */
  function Filter(vs: seq<McVersion>, keep: McVersion -> bool): (r: seq<McVersion>)
    ensures |r| <= |vs|
    ensures forall x :: x in r ==> x in vs && keep(x)
  {
    if vs == [] then [] else (if keep(vs[0]) then [vs[0]] else []) + Filter(vs[1..], keep)
  }

  /** A version is kept exactly when it is listed and passes the filter. */
  lemma {:induction false} FilterMembers(vs: seq<McVersion>, keep: McVersion -> bool, x: McVersion)
    ensures x in Filter(vs, keep) <==> x in vs && keep(x)
  {
    if vs != [] {
      FilterMembers(vs[1..], keep, x);
      assert vs == [vs[0]] + vs[1..];
    }
  }

  /** Filtering keeps the order: it distributes over concatenation. */
  lemma {:induction false} FilterConcat(a: seq<McVersion>, b: seq<McVersion>, keep: McVersion -> bool)
    ensures Filter(a + b, keep) == Filter(a, keep) + Filter(b, keep)
  {
    if a == [] {
      assert a + b == b;
    } else {
      var head := if keep(a[0]) then [a[0]] else [];
      assert (a + b)[0] == a[0];
      assert (a + b)[1..] == a[1..] + b;
      FilterConcat(a[1..], b, keep);
      calc {
        Filter(a + b, keep);
        head + Filter((a + b)[1..], keep);
        head + Filter(a[1..] + b, keep);
        head + (Filter(a[1..], keep) + Filter(b, keep));
        (head + Filter(a[1..], keep)) + Filter(b, keep);
      }
    }
  }

  /** `List.indexOf`: the first index of `v`. */
  function FirstIndex(vs: seq<McVersion>, v: McVersion): (i: int)
    requires v in vs
    ensures 0 <= i < |vs| && vs[i] == v && v !in vs[..i]
  {
    if vs[0] == v then 0
    else
      var i := FirstIndex(vs[1..], v) + 1;
      assert vs[..i] == [vs[0]] + vs[1..][..i - 1];
      i
  }

  function InvalidVersion(version: string): Exception {
    IllegalArgument("Invalid version: " + version)
  }

  /** The filter `from(version, filter)` hands to `all`: the filtered
      suffix from the version's first index, empty when that index is the
      last one. */
  function SelectFrom(vs: seq<McVersion>, target: McVersion, version: string, keep: McVersion -> bool): Result<seq<McVersion>> {
    if target !in vs then Err(InvalidVersion(version))
    else
      var i := FirstIndex(vs, target);
      if i == |vs| - 1 then Ok([]) else Ok(Filter(vs[i..], keep))
  }

  /** The filter `after(version, filter)` hands to `all`: the filtered
      suffix from one past the version's first index. */
  function SelectAfter(vs: seq<McVersion>, target: McVersion, version: string, keep: McVersion -> bool): Result<seq<McVersion>> {
    if target !in vs then Err(InvalidVersion(version))
    else
      var i := FirstIndex(vs, target);
      if i == |vs| - 1 then Ok([]) else Ok(Filter(vs[i + 1..], keep))
  }

  /** Both selections reject a version that is not listed. */
  lemma UnlistedIsInvalid(vs: seq<McVersion>, target: McVersion, version: string, keep: McVersion -> bool)
    requires target !in vs
    ensures SelectFrom(vs, target, version, keep) == Err(IllegalArgument("Invalid version: " + version))
    ensures SelectAfter(vs, target, version, keep) == Err(IllegalArgument("Invalid version: " + version))
  {
  }

  /** Selecting from the newest listed version gives nothing, even though
      `from` is otherwise inclusive. */
  lemma FromLastIsEmpty(vs: seq<McVersion>, version: string, keep: McVersion -> bool)
    requires vs != [] && vs[|vs| - 1] !in vs[..|vs| - 1]
    ensures SelectFrom(vs, vs[|vs| - 1], version, keep) == Ok([])
    ensures SelectAfter(vs, vs[|vs| - 1], version, keep) == Ok([])
  {
    var t := vs[|vs| - 1];
    var i := FirstIndex(vs, t);
    assert forall j :: 0 <= j < |vs| - 1 ==> vs[..|vs| - 1][j] == vs[j];
  }

  /** Otherwise `from` is the target itself, if it passes the filter,
      followed by what `after` selects. */
  lemma FromIsTargetThenAfter(vs: seq<McVersion>, target: McVersion, version: string, keep: McVersion -> bool)
    requires target in vs && FirstIndex(vs, target) < |vs| - 1
    ensures SelectFrom(vs, target, version, keep) ==
      Ok((if keep(target) then [target] else []) + SelectAfter(vs, target, version, keep).value)
  {
    var i := FirstIndex(vs, target);
    assert vs[i..][0] == target;
    assert vs[i..][1..] == vs[i + 1..];
  }

  /** What `after` selects: the versions listed after the target's first
      occurrence that pass the filter, in order. */
  lemma AfterMembers(vs: seq<McVersion>, target: McVersion, version: string, keep: McVersion -> bool, x: McVersion)
    requires target in vs
    ensures SelectAfter(vs, target, version, keep).Ok?
    ensures x in SelectAfter(vs, target, version, keep).value <==>
      keep(x) && exists j :: FirstIndex(vs, target) < j < |vs| && vs[j] == x
  {
    var i := FirstIndex(vs, target);
    if i < |vs| - 1 {
      FilterMembers(vs[i + 1..], keep, x);
      if x in vs[i + 1..] {
        var j :| 0 <= j < |vs[i + 1..]| && vs[i + 1..][j] == x;
        assert vs[i + 1 + j] == x;
      }
      if exists j :: i < j < |vs| && vs[j] == x {
        var j :| i < j < |vs| && vs[j] == x;
        assert vs[i + 1..][j - i - 1] == x;
      }
    }
  }

  /** `fullReleasesFrom` selects only full releases. */
  lemma FullReleasesOnly(vs: seq<McVersion>, target: McVersion, version: string, x: McVersion)
    requires SelectFrom(vs, target, version, IsRelease).Ok?
    requires x in SelectFrom(vs, target, version, IsRelease).value
    ensures IsRelease(x)
  {
    var i := FirstIndex(vs, target);
    FilterMembers(vs[i..], IsRelease, x);
  }

  /** The lines that pass `keep`, each mapped through `f`, in order. */
  function Kept(lines: seq<string>, keep: string -> bool, f: string -> string): (r: seq<string>)
    ensures |r| <= |lines|
  {
    if lines == [] then []
    else (if keep(lines[0]) then [f(lines[0])] else []) + Kept(lines[1..], keep, f)
  }

  lemma {:induction false} KeptMembers(lines: seq<string>, keep: string -> bool, f: string -> string, name: string)
    ensures name in Kept(lines, keep, f) <==> exists i :: 0 <= i < |lines| && keep(lines[i]) && f(lines[i]) == name
  {
    if lines != [] {
      var tail := lines[1..];
      KeptMembers(tail, keep, f, name);
      assert forall i :: 0 <= i < |tail| ==> tail[i] == lines[i + 1];
      if exists i :: 0 <= i < |lines| && keep(lines[i]) && f(lines[i]) == name {
        var i :| 0 <= i < |lines| && keep(lines[i]) && f(lines[i]) == name;
        if i > 0 {
          assert tail[i - 1] == lines[i];
        }
      }
    }
  }

  predicate NotComment(line: string) {
    !StartsWith(line, "#")
  }

  /** The names `fromFile` keeps: lines not starting with `#`, trimmed.
      The `#` test comes before trimming, so an indented comment stays. */
  function ListedVersions(lines: seq<string>): seq<string> {
    Kept(lines, NotComment, Trim)
  }

  lemma ListedVersionsMembers(lines: seq<string>, name: string)
    ensures name in ListedVersions(lines) <==>
      exists i :: 0 <= i < |lines| && !StartsWith(lines[i], "#") && Trim(lines[i]) == name
  {
    KeptMembers(lines, NotComment, Trim, name);
  }

  /** Only a line whose first character is `#` is dropped: an indented
      comment is kept, trimmed. */
  lemma IndentedCommentIsKept(l: string)
    ensures ListedVersions(["#" + l]) == []
    ensures ListedVersions([" " + l]) == [Trim(" " + l)]
  {
    assert StartsWith("#" + l, "#") by { assert ("#" + l)[..1] == "#"; }
    assert !StartsWith(" " + l, "#") by { assert (" " + l)[0] == ' '; }
    assert ["#" + l][1..] == [];
    assert [" " + l][1..] == [];
  }

  /** The filter `fromFile` and `fromJson` hand to `all`: the versions
      whose name is listed, in manifest order. */
  function SelectListed(vs: seq<McVersion>, listed: seq<string>): seq<McVersion> {
    Filter(vs, (v: McVersion) => v.id in listed)
  }

  lemma SelectListedMembers(vs: seq<McVersion>, listed: seq<string>, x: McVersion)
    ensures x in SelectListed(vs, listed) <==> x in vs && x.id in listed
  {
    FilterMembers(vs, (v: McVersion) => v.id in listed, x);
  }

  /** `JsonElement.getAsString`: a primitive's text, the only element of a
      one-element array, and an exception otherwise. */
  function AsString(j: Json): Result<string> {
    match j
    case JPrim(t) => Ok(t)
    case JArr(items) => if |items| == 1 then AsString(items[0]) else Err(IllegalState("array of size " + IntToString(|items|)))
    case JNull => Err(UnsupportedOperation("JsonNull"))
    case JObj(_) => Err(UnsupportedOperation("JsonObject"))
  }

  function AsStrings(items: seq<Json>): Result<seq<string>> {
    if items == [] then Ok([])
    else
      match AsString(items[0])
      case Err(e) => Err(e)
      case Ok(s) =>
        match AsStrings(items[1..])
        case Err(e) => Err(e)
        case Ok(ss) => Ok([s] + ss)
  }

  /** The names `fromJson` reads from `{"versions": [...]}`: a missing
      array is a NullPointerException, a member of another kind a
      ClassCastException. */
  function JsonVersions(json: Json): Result<seq<string>> {
    if !json.JObj? then Err(JsonParse("Expected a JSON object"))
    else if "versions" !in json.fields then Err(NullPointer)
    else if !json.fields["versions"].JArr? then Err(ClassCast("JsonArray"))
    else AsStrings(json.fields["versions"].items)
  }

  lemma {:induction false} AsStringsOfStrings(ss: seq<string>)
    ensures AsStrings(seq(|ss|, i requires 0 <= i < |ss| => JPrim(ss[i]))) == Ok(ss)
  {
    if ss != [] {
      AsStringsOfStrings(ss[1..]);
      var js := seq(|ss|, i requires 0 <= i < |ss| => JPrim(ss[i]));
      assert js[1..] == seq(|ss[1..]|, i requires 0 <= i < |ss[1..]| => JPrim(ss[1..][i]));
      assert [ss[0]] + ss[1..] == ss;
    }
  }

  /** An array of strings is read back as those strings, in order. */
  lemma JsonVersionsOfStrings(ss: seq<string>)
    ensures JsonVersions(JObj(map["versions" := JArr(seq(|ss|, i requires 0 <= i < |ss| => JPrim(ss[i])))])) == Ok(ss)
  {
    AsStringsOfStrings(ss);
  }

  const VersionStringDecl := "public static final String VERSION_STRING"

  /** The first line containing the VERSION_STRING declaration. */
  function FirstDeclaration(lines: seq<string>): (r: Option<string>)
    ensures r.Some? ==> r.value in lines && Contains(r.value, VersionStringDecl)
    ensures r.None? ==> forall i :: 0 <= i < |lines| ==> !Contains(lines[i], VersionStringDecl)
  {
    if lines == [] then None
    else if Contains(lines[0], VersionStringDecl) then Some(lines[0])
    else FirstDeclaration(lines[1..])
  }

  /** `line.substring(line.indexOf('"') + 1, line.lastIndexOf('"'))`,
      which fails unless two quotes are present. */
  function QuotedValue(line: string): (r: Result<string>)
    ensures r.Ok? <==> 0 <= IndexOf(line, '"') < LastIndexOf(line, '"')
    ensures r.Ok? ==> r.value == line[IndexOf(line, '"') + 1..LastIndexOf(line, '"')]
  {
    var b, e := IndexOf(line, '"') + 1, LastIndexOf(line, '"');
    if e < b then Err(IndexOutOfBounds(e)) else Ok(line[b..e])
  }

  /** With exactly two quotes, the value is the text between them. */
  lemma QuotedValueOf(pre: string, v: string, post: string)
    requires '"' !in pre && '"' !in v && '"' !in post
    ensures QuotedValue(pre + "\"" + v + "\"" + post) == Ok(v)
  {
    var line := pre + "\"" + v + "\"" + post;
    var b, e := |pre|, |pre| + 1 + |v|;
    assert line[..b] == pre;
    assert line[b + 1..e] == v;
    assert line[e + 1..] == post;
    IndexOfAt(line, '"', b);
    LastIndexOfAt(line, '"', e);
  }

  /** The first declaring line is the one used, whatever follows. */
  lemma {:induction false} FirstDeclarationIsFirst(lines: seq<string>, k: nat)
    requires k < |lines| && Contains(lines[k], VersionStringDecl)
    requires forall i :: 0 <= i < k ==> !Contains(lines[i], VersionStringDecl)
    ensures FirstDeclaration(lines) == Some(lines[k])
  {
    if k > 0 {
      assert !Contains(lines[0], VersionStringDecl);
      assert lines[1..][k - 1] == lines[k];
      assert forall i :: 0 <= i < k - 1 ==> lines[1..][i] == lines[i + 1];
      FirstDeclarationIsFirst(lines[1..], k - 1);
    }
  }

  /** The version the generated sources are already at: the `id` of
      `version.json` if that file exists, else the VERSION_STRING of
      `SharedConstants.java` if that file exists and declares it, else
      none. */
  function CurrentVersion(versionJson: Option<Json>, sharedConstants: Option<seq<string>>): Result<Option<string>> {
    if versionJson.Some? then
      var j := versionJson.value;
      if !j.JObj? then Err(JsonParse("Expected a JSON object"))
      else if "id" !in j.fields then Err(NullPointer)
      else
        match AsString(j.fields["id"])
        case Err(e) => Err(e)
        case Ok(id) => Ok(Some(id))
    else if sharedConstants.Some? then
      match FirstDeclaration(sharedConstants.value)
      case None => Ok(None)
      case Some(line) =>
        match QuotedValue(line)
        case Err(e) => Err(e)
        case Ok(v) => Ok(Some(v))
    else Ok(None)
  }

  /** Without `version.json`, the first declaring line of
      `SharedConstants.java` gives the current version: the text between
      its two quotes. */
  lemma CurrentFromSharedConstants(lines: seq<string>, k: nat, pre: string, v: string, post: string)
    requires k < |lines| && lines[k] == pre + "\"" + v + "\"" + post
    requires '"' !in pre && '"' !in v && '"' !in post
    requires Contains(lines[k], VersionStringDecl)
    requires forall i :: 0 <= i < k ==> !Contains(lines[i], VersionStringDecl)
    ensures CurrentVersion(None, Some(lines)) == Ok(Some(v))
  {
    FirstDeclarationIsFirst(lines, k);
    QuotedValueOf(pre, v, post);
  }

  /** `version.json` wins over `SharedConstants.java`. */
  lemma VersionJsonFirst(id: string, fields: map<string, Json>, lines: Option<seq<string>>)
    requires "id" in fields && fields["id"] == JPrim(id)
    ensures CurrentVersion(Some(JObj(fields)), lines) == Ok(Some(id))
  {
  }

  function Reverse(vs: seq<McVersion>): (r: seq<McVersion>)
    ensures |r| == |vs| && forall i :: 0 <= i < |vs| ==> r[i] == vs[|vs| - 1 - i]
  {
    if vs == [] then [] else Reverse(vs[1..]) + [vs[0]]
  }

  function ParseAll(ids: seq<string>, parse: string -> McVersion): (r: seq<McVersion>)
    ensures |r| == |ids| && forall i :: 0 <= i < |ids| ==> r[i] == parse(ids[i])
  {
    if ids == [] then [] else [parse(ids[0])] + ParseAll(ids[1..], parse)
  }

  function Names(vs: seq<McVersion>): (r: seq<string>)
    ensures |r| == |vs| && forall i :: 0 <= i < |vs| ==> r[i] == vs[i].id
  {
    if vs == [] then [] else [vs[0].id] + Names(vs[1..])
  }

  /** The manifest's versions, newest first as the manifest lists them,
      parsed and turned oldest first. */
  function Chronological(manifest: seq<string>, parse: string -> McVersion): seq<McVersion> {
    Reverse(ParseAll(manifest, parse))
  }

  /** `MinecraftSourceExtension`: the versions to generate and whether
      generation continues from the existing sources. */
  class MinecraftSourceExtension {
    var versionsToGenerate: seq<string>
    var isIncremental: bool

    constructor ()
      ensures versionsToGenerate == [] && isIncremental
    {
      versionsToGenerate := [];
      isIncremental := true;
    }

    /** `all(filter)`: the manifest reversed, then filtered; a filter that
        throws leaves the list as it was. */
    method All(manifest: seq<string>, parse: string -> McVersion, filter: seq<McVersion> -> Result<seq<McVersion>>)
      returns (r: Outcome)
      modifies this
      ensures isIncremental == old(isIncremental)
      ensures var out := filter(Chronological(manifest, parse));
        (out.Ok? ==> r == Pass && versionsToGenerate == Names(out.value)) &&
        (out.Err? ==> r == Fail(out.error) && versionsToGenerate == old(versionsToGenerate))
    {
      var versions := Chronological(manifest, parse);
      var toGenerate := filter(versions);
      if toGenerate.Err? {
        return Fail(toGenerate.error);
      }
      versionsToGenerate := Names(toGenerate.value);
      return Pass;
    }

    method From(manifest: seq<string>, parse: string -> McVersion, version: string, keep: McVersion -> bool)
      returns (r: Outcome)
      modifies this
      ensures isIncremental == old(isIncremental)
      ensures var out := SelectFrom(Chronological(manifest, parse), parse(version), version, keep);
        (out.Ok? ==> r == Pass && versionsToGenerate == Names(out.value)) &&
        (out.Err? ==> r == Fail(out.error) && versionsToGenerate == old(versionsToGenerate))
    {
      r := All(manifest, parse, vs => SelectFrom(vs, parse(version), version, keep));
    }

    method After(manifest: seq<string>, parse: string -> McVersion, version: string, keep: McVersion -> bool)
      returns (r: Outcome)
      modifies this
      ensures isIncremental == old(isIncremental)
      ensures var out := SelectAfter(Chronological(manifest, parse), parse(version), version, keep);
        (out.Ok? ==> r == Pass && versionsToGenerate == Names(out.value)) &&
        (out.Err? ==> r == Fail(out.error) && versionsToGenerate == old(versionsToGenerate))
    {
      r := All(manifest, parse, vs => SelectAfter(vs, parse(version), version, keep));
    }

    /** `fromFile`: the listed versions, in manifest order. */
    method FromFile(manifest: seq<string>, parse: string -> McVersion, lines: seq<string>)
      modifies this
      ensures isIncremental == old(isIncremental)
      ensures versionsToGenerate == Names(SelectListed(Chronological(manifest, parse), ListedVersions(lines)))
    {
      var listed := ListedVersions(lines);
      var r := All(manifest, parse, vs => Ok(SelectListed(vs, listed)));
    }

    /** `fromJson`: the versions named in the `versions` array, in
        manifest order; a malformed file changes nothing. */
    method FromJson(manifest: seq<string>, parse: string -> McVersion, json: Json) returns (r: Outcome)
      modifies this
      ensures isIncremental == old(isIncremental)
      ensures JsonVersions(json).Err? ==> r == Fail(JsonVersions(json).error) && versionsToGenerate == old(versionsToGenerate)
      ensures JsonVersions(json).Ok? ==> r == Pass
      ensures JsonVersions(json).Ok? ==>
        versionsToGenerate == Names(SelectListed(Chronological(manifest, parse), JsonVersions(json).value))
    {
      var listed := JsonVersions(json);
      if listed.Err? {
        return Fail(listed.error);
      }
      r := All(manifest, parse, vs => Ok(SelectListed(vs, listed.value)));
    }

    /** `automaticallyIncrementalFrom(version)`: with a current version,
        incremental generation of everything after it; without one, a
        full generation from `version`. The flag is set before the
        selection runs, so it is set even when the selection fails. */
    method AutomaticallyIncrementalFrom(manifest: seq<string>, parse: string -> McVersion, version: string,
                                        versionJson: Option<Json>, sharedConstants: Option<seq<string>>)
      returns (r: Outcome)
      modifies this
      ensures var cur := CurrentVersion(versionJson, sharedConstants);
        cur.Err? ==> r == Fail(cur.error) && versionsToGenerate == old(versionsToGenerate) && isIncremental == old(isIncremental)
      ensures var cur := CurrentVersion(versionJson, sharedConstants);
        cur.Ok? ==> isIncremental == cur.value.Some?
      ensures var cur := CurrentVersion(versionJson, sharedConstants);
        cur.Ok? && cur.value.Some? ==>
          var out := SelectAfter(Chronological(manifest, parse), parse(cur.value.value), cur.value.value, _ => true);
          (out.Ok? ==> r == Pass && versionsToGenerate == Names(out.value)) &&
          (out.Err? ==> r == Fail(out.error) && versionsToGenerate == old(versionsToGenerate))
      ensures var cur := CurrentVersion(versionJson, sharedConstants);
        cur.Ok? && cur.value.None? ==>
          var out := SelectFrom(Chronological(manifest, parse), parse(version), version, _ => true);
          (out.Ok? ==> r == Pass && versionsToGenerate == Names(out.value)) &&
          (out.Err? ==> r == Fail(out.error) && versionsToGenerate == old(versionsToGenerate))
    {
      var current := CurrentVersion(versionJson, sharedConstants);
      if current.Err? {
        return Fail(current.error);
      }
      if current.value.Some? {
        isIncremental := true;
        r := After(manifest, parse, current.value.value, _ => true);
      } else {
        isIncremental := false;
        r := From(manifest, parse, version, _ => true);
      }
    }
  }
}
