/** The QuickMod descriptor cache: one JSON file per mod in the "quickmod"
    directory, filled from downloads and from stubs synthesised for local mod
    files, and read back into the mod list. */
module QuickModFiles {
  import opened QuickModData

  /** The fields of a local mod file (class Mod) that ensureExists reads;
      `dirPath` is QFileInfo::path() of the mod's file, its directory. */
  datatype LocalMod = LocalMod(name: string, modId: string, homeUrl: Url, description: string, dirPath: string)

  /** What reading a cache file yields: parseQuickMod fails (the file cannot
      be opened or does not parse) or gives a descriptor. */
  datatype Content = Unparseable(reason: string) | Parsed(mod: QuickMod)

  /** The JSON values the updater inspects, and an object as its key/value
      pairs in iteration order. */
  datatype Json = JBool(b: bool) | JString(s: string) | JOther
  type JsonObject = seq<(string, Json)>

  /** The outcome of QuickMod::parse on a payload. */
  datatype ParseOutcome = ParsedMod(mod: QuickMod) | ParseError(message: string)

  /** A finished download: its URL, the top-level object of the payload read
      as JSON (empty when the payload is not a JSON object) and what
      QuickMod::parse makes of the same payload. */
  datatype Download = Download(url: Url, json: JsonObject, parsed: ParseOutcome)

  /** The error signal of the updater. */
  datatype UpdaterError =
    | ParseFailed(message: string)
    | WriteFailed(file: string)
    | DownloadFailed(url: Url, reason: string)

  const IndexKey := "IsIndex"
  const JsonSuffix := ".json"

  // ---------------------------------------------------------------------
  // The file format
  // ---------------------------------------------------------------------

  /** The "type" tag saveQuickMod writes for each mod type. */
  function TypeTag(t: ModType): (tag: string)
    ensures TypeFromTag(tag) == Some(t)
  {
    match t
    case ForgeMod => "forgeMod"
    case ForgeCoreMod => "forgeCoreMod"
    case ResourcePack => "resourcepack"
    case ConfigPack => "configpack"
    case Group => "group"
  }

  /** The reading of a "type" tag that undoes TypeTag. */
  function TypeFromTag(tag: string): (t: Option<ModType>) {
    if tag == "forgeMod" then Some(ForgeMod)
    else if tag == "forgeCoreMod" then Some(ForgeCoreMod)
    else if tag == "resourcepack" then Some(ResourcePack)
    else if tag == "configpack" then Some(ConfigPack)
    else if tag == "group" then Some(Group)
    else None
  }

  /** Distinct types get distinct tags. */
  lemma TypeTagInjective(a: ModType, b: ModType)
    ensures TypeTag(a) == TypeTag(b) <==> a == b
  {
    assert TypeFromTag(TypeTag(a)) == Some(a);
    assert TypeFromTag(TypeTag(b)) == Some(b);
  }

  function Keys(obj: JsonObject): (keys: seq<string>) {
    if obj == [] then [] else [obj[0].0] + Keys(obj[1..])
  }

  /** QJsonObject::value: the value stored under `key`. */
  function Lookup(obj: JsonObject, key: string): (v: Option<Json>) {
    if obj == [] then None
    else if obj[0].0 == key then Some(obj[0].1)
    else Lookup(obj[1..], key)
  }

  /** The object saveQuickMod writes for `mod`, its pairs in the order a
      QJsonObject iterates them: sorted by key. */
  function SaveObject(mod: QuickMod): (obj: JsonObject)
    ensures Keys(obj) == ["description", "modId", "name", "stub", "type", "websiteUrl"]
    ensures Lookup(obj, "name") == Some(JString(mod.name))
    ensures Lookup(obj, "modId") == Some(JString(mod.modId))
    ensures Lookup(obj, "websiteUrl") == Some(JString(mod.websiteUrl))
    ensures Lookup(obj, "description") == Some(JString(mod.description))
    ensures Lookup(obj, "stub") == Some(JBool(mod.stub))
    ensures Lookup(obj, "type") == Some(JString(TypeTag(mod.modType)))
  {
    var tail5 := [("websiteUrl", JString(mod.websiteUrl))];
    var tail4 := [("type", JString(TypeTag(mod.modType)))] + tail5;
    var tail3 := [("stub", JBool(mod.stub))] + tail4;
    var tail2 := [("name", JString(mod.name))] + tail3;
    var tail1 := [("modId", JString(mod.modId))] + tail2;
    var obj := [("description", JString(mod.description))] + tail1;
    assert obj[1..] == tail1 && tail1[1..] == tail2 && tail2[1..] == tail3;
    assert tail3[1..] == tail4 && tail4[1..] == tail5 && tail5[1..] == [];
    assert Keys(tail5) == ["websiteUrl"] && Keys(tail4) == ["type", "websiteUrl"];
    assert Keys(tail3) == ["stub", "type", "websiteUrl"];
    assert Keys(tail2) == ["name", "stub", "type", "websiteUrl"];
    assert Keys(tail1) == ["modId", "name", "stub", "type", "websiteUrl"];
    assert Lookup(obj, "name") == Lookup(tail1, "name") == Lookup(tail2, "name");
    assert Lookup(obj, "stub") == Lookup(tail1, "stub") == Lookup(tail2, "stub") == Lookup(tail3, "stub");
    assert Lookup(obj, "type") == Lookup(tail1, "type") == Lookup(tail2, "type") == Lookup(tail3, "type")
        == Lookup(tail4, "type");
    assert Lookup(obj, "websiteUrl") == Lookup(tail1, "websiteUrl") == Lookup(tail2, "websiteUrl")
        == Lookup(tail3, "websiteUrl") == Lookup(tail4, "websiteUrl") == Lookup(tail5, "websiteUrl");
    obj
  }

  /** The cache file of the mod with this uid. */
  function FileName(uid: string): (f: string)
    ensures IsJsonFile(f)
    ensures |f| == |uid| + |JsonSuffix| && f[..|uid|] == uid
  {
    uid + JsonSuffix
  }

  /** Distinct uids get distinct cache files, and a uid always gets the
      same one. */
  lemma FileNameInjective(a: string, b: string)
    ensures FileName(a) == FileName(b) <==> a == b
  {
    if FileName(a) == FileName(b) {
      assert a == FileName(a)[..|a|];
    }
  }

  function LowerAscii(c: char): (l: char) {
    if 'A' <= c <= 'Z' then (c as int - 'A' as int + 'a' as int) as char else c
  }

  /** Matches the name filter "*.json" of the directory listing, which
      ignores case. */
  predicate IsJsonFile(name: string) {
    && |name| >= |JsonSuffix|
    && forall i :: 0 <= i < |JsonSuffix| ==> LowerAscii(name[|name| - |JsonSuffix| + i]) == JsonSuffix[i]
  }

  // ---------------------------------------------------------------------
  // Stubs
  // ---------------------------------------------------------------------

  /** `sub` occurs in `s` at index `i`. */
  predicate OccursAt(s: string, sub: string, i: nat) {
    i + |sub| <= |s| && s[i..i + |sub|] == sub
  }

  /** QString::contains: `sub` occurs in `s`. */
  function Contains(s: string, sub: string): (b: bool)
    ensures b <==> exists i: nat :: OccursAt(s, sub, i)
    decreases |s|
  {
    if |s| < |sub| then
      assert forall i: nat :: !OccursAt(s, sub, i);
      false
    else if s[..|sub|] == sub then
      assert OccursAt(s, sub, 0);
      true
    else
      var b := Contains(s[1..], sub);
      assert b ==> exists i: nat :: OccursAt(s, sub, i) by {
        if b {
          var i: nat :| OccursAt(s[1..], sub, i);
          assert s[i + 1..i + 1 + |sub|] == s[1..][i..i + |sub|];
          assert OccursAt(s, sub, i + 1);
        }
      }
      assert (exists i: nat :: OccursAt(s, sub, i)) ==> b by {
        if exists i: nat :: OccursAt(s, sub, i) {
          var i: nat :| OccursAt(s, sub, i);
          assert i != 0;
          assert s[1..][i - 1..i - 1 + |sub|] == s[i..i + |sub|];
          assert OccursAt(s[1..], sub, i - 1);
        }
      }
      b
  }

  /** Line 50 as written: the mod id when that is empty, the name
      otherwise. */
  function StubModIdAsWritten(m: LocalMod): (id: string)
    ensures m.modId == "" ==> id == ""
    ensures m.modId != "" ==> id == m.name
  {
    if m.modId == "" then m.modId else m.name
  }

  /** As written, a stub for a mod with an id gets the mod's name instead,
      and a stub for a mod without one gets an empty id although the mod
      has a name. */
  lemma StubModIdAsWrittenLosesId()
    ensures StubModIdAsWritten(LocalMod("Example Mod", "examplemod", "", "", "mods")) == "Example Mod"
    ensures StubModIdAsWritten(LocalMod("Example Mod", "", "", "", "mods")) == ""
  {
  }

  /** The stub's mod id as intended: the mod id, falling back to the name
      when the mod has none. */
  function StubModId(m: LocalMod): (id: string)
    ensures m.modId != "" ==> id == m.modId
    ensures m.modId == "" ==> id == m.name
    ensures id == "" <==> m.modId == "" && m.name == ""
  {
    if m.modId == "" then m.name else m.modId
  }

  /** The placeholder descriptor ensureExists synthesises for a local mod: a
      stub, a core mod when the mod lives in a directory whose path contains
      "coremod", with no references and no valid update URL. */
  function StubOf(m: LocalMod): (q: QuickMod)
    ensures q.stub
    ensures q.modType == ForgeCoreMod <==> Contains(m.dirPath, "coremod")
    ensures q.modType == ForgeMod <==> !Contains(m.dirPath, "coremod")
    ensures q.name == m.name && q.modId == StubModId(m)
    ensures q.websiteUrl == m.homeUrl && q.description == m.description
    ensures q.references == [] && !IsValidUrl(q.updateUrl)
  {
    QuickMod(
      name := m.name,
      modId := StubModId(m),
      websiteUrl := m.homeUrl,
      description := m.description,
      stub := true,
      modType := if Contains(m.dirPath, "coremod") then ForgeCoreMod else ForgeMod,
      updateUrl := "",
      references := [])
  }

  /** The cached descriptor that ensureExists keeps instead of writing a
      stub: the file exists, parses, and is not itself a stub. */
  predicate KeepsCached(dir: map<string, Content>, file: string) {
    file in dir && dir[file].Parsed? && !dir[file].mod.stub
  }

  // ---------------------------------------------------------------------
  // Downloads, updates and the directory listing
  // ---------------------------------------------------------------------

  /** QJsonValue::toString with its default: the text of a string, and
      the empty string for anything else. */
  function AsString(v: Json): (u: Url) {
    if v.JString? then v.s else ""
  }

  /** The payload is an index: it has "IsIndex" and its value is true. */
  predicate IsIndex(obj: JsonObject) {
    Lookup(obj, IndexKey) == Some(JBool(true))
  }

  /** The URLs an index registers: the value of every key but "IsIndex", in
      order. */
  function IndexUrls(obj: JsonObject): (urls: seq<Url>)
    decreases |obj|
  {
    if obj == [] then []
    else
      var before := IndexUrls(obj[..|obj| - 1]);
      var entry := obj[|obj| - 1];
      if entry.0 != IndexKey then before + [AsString(entry.1)] else before
  }

  /** A URL is registered from an index exactly when some entry other than
      "IsIndex" holds it. */
  lemma {:induction false} IndexUrlsExactly(obj: JsonObject, u: Url)
    ensures u in IndexUrls(obj) <==> exists j :: 0 <= j < |obj| && obj[j].0 != IndexKey && AsString(obj[j].1) == u
    decreases |obj|
  {
    if obj != [] {
      var n := |obj| - 1;
      var init := obj[..n];
      IndexUrlsExactly(init, u);
      if u in IndexUrls(obj) {
        if u in IndexUrls(init) {
          var j :| 0 <= j < |init| && init[j].0 != IndexKey && AsString(init[j].1) == u;
          assert obj[j] == init[j];
        }
      } else {
        forall j | 0 <= j < |obj| && obj[j].0 != IndexKey
          ensures AsString(obj[j].1) != u
        {
          if j < n {
            assert init[j] == obj[j];
          }
        }
      }
    }
  }

  /** The update URLs update() fetches: the valid ones, in list order. */
  function ValidUpdateUrls(mods: seq<QuickMod>): (urls: seq<Url>)
    decreases |mods|
  {
    if mods == [] then []
    else
      var before := ValidUpdateUrls(mods[..|mods| - 1]);
      var url := mods[|mods| - 1].updateUrl;
      if IsValidUrl(url) then before + [url] else before
  }

  /** update() fetches a URL exactly when it is the valid update URL of a
      listed mod. */
  lemma {:induction false} ValidUpdateUrlsExactly(mods: seq<QuickMod>, u: Url)
    ensures u in ValidUpdateUrls(mods) <==> IsValidUrl(u) && exists j :: 0 <= j < |mods| && mods[j].updateUrl == u
    decreases |mods|
  {
    if mods != [] {
      var n := |mods| - 1;
      var init := mods[..n];
      ValidUpdateUrlsExactly(init, u);
      if u in ValidUpdateUrls(mods) {
        if u in ValidUpdateUrls(init) {
          var j :| 0 <= j < |init| && init[j].updateUrl == u;
          assert mods[j] == init[j];
        }
      } else if IsValidUrl(u) {
        forall j | 0 <= j < |mods|
          ensures mods[j].updateUrl != u
        {
          if j < n {
            assert init[j] == mods[j];
          }
        }
      }
    }
  }

  /** A hidden file: its name starts with a dot. */
  predicate Hidden(name: string) {
    |name| > 0 && name[0] == '.'
  }

  /** The cache file of a uid is hidden exactly when the uid is empty or
      itself starts with a dot. */
  lemma FileNameHidden(uid: string)
    ensures Hidden(FileName(uid)) <==> uid == "" || uid[0] == '.'
  {
    if uid != "" {
      assert FileName(uid)[0] == uid[0];
    }
  }

  /** `listing` enumerates the files of `dir` that entryInfoList returns
      without QDir::Hidden, each once: every file but the hidden ones. */
  ghost predicate IsListingOf(listing: seq<string>, dir: map<string, Content>) {
    NoDups(listing) && forall n :: n in listing <==> n in dir && !Hidden(n)
  }

  /** The descriptors readModFiles adds, in listing order: those of the
      listed "*.json" files that parse. */
  function LoadedMods(listing: seq<string>, dir: map<string, Content>): (loaded: seq<QuickMod>)
    requires forall n :: n in listing ==> n in dir
    decreases |listing|
  {
    if listing == [] then []
    else
      var before := LoadedMods(listing[..|listing| - 1], dir);
      var n := listing[|listing| - 1];
      if IsJsonFile(n) && dir[n].Parsed? then before + [dir[n].mod] else before
  }

  /** The errors readModFiles reports: one per listed "*.json" file that
      does not parse. */
  function LoadErrors(listing: seq<string>, dir: map<string, Content>): (reported: seq<UpdaterError>)
    requires forall n :: n in listing ==> n in dir
    decreases |listing|
  {
    if listing == [] then []
    else
      var before := LoadErrors(listing[..|listing| - 1], dir);
      var n := listing[|listing| - 1];
      if IsJsonFile(n) && dir[n].Unparseable? then before + [ParseFailed(dir[n].reason)] else before
  }

  /** A descriptor is loaded exactly when some listed "*.json" file parses
      to it. */
  lemma {:induction false} LoadedModsExactly(listing: seq<string>, dir: map<string, Content>, m: QuickMod)
    requires forall n :: n in listing ==> n in dir
    ensures m in LoadedMods(listing, dir) <==>
            exists j :: 0 <= j < |listing| && IsJsonFile(listing[j]) && dir[listing[j]] == Parsed(m)
    decreases |listing|
  {
    if listing != [] {
      var n := |listing| - 1;
      var init := listing[..n];
      LoadedModsExactly(init, dir, m);
      if m in LoadedMods(listing, dir) {
        if m in LoadedMods(init, dir) {
          var j :| 0 <= j < |init| && IsJsonFile(init[j]) && dir[init[j]] == Parsed(m);
          assert listing[j] == init[j];
        }
      } else {
        forall j | 0 <= j < |listing| && IsJsonFile(listing[j])
          ensures dir[listing[j]] != Parsed(m)
        {
          if j < n {
            assert init[j] == listing[j];
          }
        }
      }
    }
  }

  /** A parse failure is reported exactly when some listed "*.json" file
      does not parse, with that reason. */
  lemma {:induction false} LoadErrorsExactly(listing: seq<string>, dir: map<string, Content>, e: UpdaterError)
    requires forall n :: n in listing ==> n in dir
    ensures e in LoadErrors(listing, dir) <==>
            exists j :: 0 <= j < |listing| && IsJsonFile(listing[j]) && dir[listing[j]].Unparseable? &&
                        e == ParseFailed(dir[listing[j]].reason)
    decreases |listing|
  {
    if listing != [] {
      var n := |listing| - 1;
      var init := listing[..n];
      LoadErrorsExactly(init, dir, e);
      if e in LoadErrors(listing, dir) {
        if e in LoadErrors(init, dir) {
          var j :| 0 <= j < |init| && IsJsonFile(init[j]) && dir[init[j]].Unparseable? &&
                   e == ParseFailed(dir[init[j]].reason);
          assert listing[j] == init[j];
        }
      } else {
        forall j | 0 <= j < |listing| && IsJsonFile(listing[j]) && dir[listing[j]].Unparseable?
          ensures e != ParseFailed(dir[listing[j]].reason)
        {
          if j < n {
            assert init[j] == listing[j];
          }
        }
      }
    }
  }

  /** Over the listing of the directory, a descriptor is loaded exactly
      when some "*.json" file of the directory that is not hidden parses to
      it. */
  lemma LoadedModsFromDirectory(listing: seq<string>, dir: map<string, Content>, m: QuickMod)
    requires IsListingOf(listing, dir)
    ensures m in LoadedMods(listing, dir) <==>
            exists n :: n in dir && IsJsonFile(n) && !Hidden(n) && dir[n] == Parsed(m)
  {
    LoadedModsExactly(listing, dir, m);
    if m in LoadedMods(listing, dir) {
      var j :| 0 <= j < |listing| && IsJsonFile(listing[j]) && dir[listing[j]] == Parsed(m);
      assert listing[j] in listing;
    }
    if exists n :: n in dir && IsJsonFile(n) && !Hidden(n) && dir[n] == Parsed(m) {
      var n :| n in dir && IsJsonFile(n) && !Hidden(n) && dir[n] == Parsed(m);
      var j :| 0 <= j < |listing| && listing[j] == n;
    }
  }

  /** A descriptor in the cache file of `uid` is read back exactly when
      `uid` is neither empty nor starts with a dot, unless another visible
      file holds the same descriptor. */
  lemma SavedReadBack(listing: seq<string>, dir: map<string, Content>, uid: string, m: QuickMod)
    requires IsListingOf(listing, dir)
    requires FileName(uid) in dir && dir[FileName(uid)] == Parsed(m)
    ensures uid != "" && uid[0] != '.' ==> m in LoadedMods(listing, dir)
    ensures (uid == "" || uid[0] == '.') && (forall n :: n in dir && n != FileName(uid) ==> dir[n] != Parsed(m))
            ==> m !in LoadedMods(listing, dir)
  {
    FileNameHidden(uid);
    LoadedModsFromDirectory(listing, dir, m);
  }

  // ---------------------------------------------------------------------
  // The updater
  // ---------------------------------------------------------------------

  class QuickModFilesUpdater {
    /** QuickMod::uid(), which names a descriptor's cache file. */
    const uidOf: QuickMod -> string
    /** The cache directory: file name to what reading the file yields. */
    var dir: map<string, Content>
    /** The mod list the updater fills (QuickModsList). */
    var list: seq<QuickMod>
    /** The URLs handed to the downloader, in order. */
    ghost var fetches: seq<Url>
    /** The errors emitted, in order. */
    ghost var errors: seq<UpdaterError>
    /** The objects saveQuickMod wrote, with their file names. */
    ghost var writes: seq<(string, JsonObject)>

    constructor (uidOf: QuickMod -> string, list: seq<QuickMod>, dir: map<string, Content>)
      ensures this.uidOf == uidOf && this.list == list && this.dir == dir
      ensures fetches == [] && errors == [] && writes == []
    {
      this.uidOf := uidOf;
      this.list := list;
      this.dir := dir;
      fetches := [];
      errors := [];
      writes := [];
    }

    /** registerFile: fetch the descriptor at `url`. */
    method RegisterFile(url: Url)
      modifies this
      ensures fetches == old(fetches) + [url]
      ensures dir == old(dir) && list == old(list) && errors == old(errors) && writes == old(writes)
    {
      fetches := fetches + [url];
    }

    /** update: fetch every listed mod's update URL that is valid. */
    method Update()
      modifies this
      ensures fetches == old(fetches) + ValidUpdateUrls(list)
      ensures dir == old(dir) && list == old(list) && errors == old(errors) && writes == old(writes)
    {
      for i := 0 to |list|
        invariant dir == old(dir) && list == old(list) && errors == old(errors) && writes == old(writes)
        invariant fetches == old(fetches) + ValidUpdateUrls(list[..i])
      {
        assert list[..i + 1][..i] == list[..i];
        var url := list[i].updateUrl;
        if IsValidUrl(url) {
          fetches := fetches + [url];
        }
      }
      assert list[..|list|] == list;
    }

    /** saveQuickMod: write `mod` to its cache file and add it to the list;
        when the file cannot be opened, report that and change nothing. A
        written file is taken to read back as `mod`. */
    method SaveQuickMod(mod: QuickMod, writable: bool)
      modifies this
      ensures var f := FileName(uidOf(mod));
        if writable then
          && dir == old(dir)[f := Parsed(mod)]
          && list == old(list) + [mod]
          && writes == old(writes) + [(f, SaveObject(mod))]
          && errors == old(errors)
        else
          && dir == old(dir) && list == old(list) && writes == old(writes)
          && errors == old(errors) + [WriteFailed(f)]
      ensures fetches == old(fetches)
    {
      var obj := SaveObject(mod);
      var f := FileName(uidOf(mod));
      if !writable {
        errors := errors + [WriteFailed(f)];
        return;
      }
      writes := writes + [(f, obj)];
      dir := dir[f := Parsed(mod)];
      list := list + [mod];
    }

    /** ensureExists: synthesise a stub for a local mod and save it unless
        its cache file holds a descriptor that parses and is not a stub, in
        which case that one is returned and nothing is written. */
    method EnsureExists(m: LocalMod, writable: bool) returns (r: QuickMod)
      modifies this
      ensures var stub := StubOf(m);
        var f := FileName(uidOf(stub));
        if KeepsCached(old(dir), f) then
          && r == old(dir)[f].mod
          && dir == old(dir) && list == old(list) && writes == old(writes) && errors == old(errors)
        else
          var readError := if f in old(dir) && old(dir)[f].Unparseable? then [ParseFailed(old(dir)[f].reason)] else [];
          && r == stub
          && dir == (if writable then old(dir)[f := Parsed(stub)] else old(dir))
          && list == (if writable then old(list) + [stub] else old(list))
          && writes == (if writable then old(writes) + [(f, SaveObject(stub))] else old(writes))
          && errors == old(errors) + readError + (if writable then [] else [WriteFailed(f)])
      ensures r.stub <==> !KeepsCached(old(dir), FileName(uidOf(StubOf(m))))
      ensures forall n :: KeepsCached(old(dir), n) ==> KeepsCached(dir, n) && dir[n] == old(dir)[n]
      ensures fetches == old(fetches)
    {
      var stub := StubOf(m);
      var f := FileName(uidOf(stub));
      if f !in dir {
        SaveQuickMod(stub, writable);
        r := stub;
      } else {
        match dir[f]
        case Unparseable(reason) =>
          errors := errors + [ParseFailed(reason)];
          SaveQuickMod(stub, writable);
          r := stub;
        case Parsed(cached) =>
          if cached.stub {
            SaveQuickMod(stub, writable);
            r := stub;
          } else {
            r := cached;
          }
      }
    }

    /** receivedMod: an index payload registers the URL under every key but
        "IsIndex"; otherwise a payload that does not parse is reported, and
        one that parses replaces its cache file and is added to the list
        (the old file is removed before the new one is opened, so a failed
        open leaves no file). */
    method ReceivedMod(download: Download, writable: bool)
      modifies this
      ensures IsIndex(download.json) ==>
        && fetches == old(fetches) + IndexUrls(download.json)
        && dir == old(dir) && list == old(list) && errors == old(errors)
      ensures !IsIndex(download.json) && download.parsed.ParseError? ==>
        && errors == old(errors) + [ParseFailed(download.parsed.message)]
        && dir == old(dir) && list == old(list) && fetches == old(fetches)
      ensures !IsIndex(download.json) && download.parsed.ParsedMod? ==>
        var mod := download.parsed.mod;
        var f := FileName(uidOf(mod));
        && fetches == old(fetches)
        && (if writable then
              dir == old(dir)[f := Parsed(mod)] && list == old(list) + [mod] && errors == old(errors)
            else
              dir == old(dir) - {f} && list == old(list) && errors == old(errors) + [WriteFailed(f)])
      ensures writes == old(writes)
    {
      var obj := download.json;
      if IsIndex(obj) {
        for i := 0 to |obj|
          invariant fetches == old(fetches) + IndexUrls(obj[..i])
          invariant dir == old(dir) && list == old(list) && errors == old(errors) && writes == old(writes)
        {
          assert obj[..i + 1][..i] == obj[..i];
          if obj[i].0 != IndexKey {
            RegisterFile(AsString(obj[i].1));
          }
        }
        assert obj[..|obj|] == obj;
        return;
      }
      match download.parsed
      case ParseError(message) =>
        errors := errors + [ParseFailed(message)];
      case ParsedMod(mod) =>
        var f := FileName(uidOf(mod));
        dir := dir - {f};
        if !writable {
          errors := errors + [WriteFailed(f)];
          return;
        }
        dir := dir[f := Parsed(mod)];
        list := list + [mod];
    }

    /** failedMod: report a download that failed. */
    method FailedMod(url: Url, reason: string)
      modifies this
      ensures errors == old(errors) + [DownloadFailed(url, reason)]
      ensures dir == old(dir) && list == old(list) && fetches == old(fetches) && writes == old(writes)
    {
      errors := errors + [DownloadFailed(url, reason)];
    }

    /** readModFiles: clear the list, then add the descriptor of every
        "*.json" file of the directory that parses, reporting those that do
        not. `listing` is the directory listing without hidden files, in its
        order. */
    method ReadModFiles(listing: seq<string>)
      requires IsListingOf(listing, dir)
      modifies this
      ensures dir == old(dir) && fetches == old(fetches) && writes == old(writes)
      ensures list == LoadedMods(listing, dir)
      ensures errors == old(errors) + LoadErrors(listing, dir)
    {
      list := [];
      for i := 0 to |listing|
        invariant dir == old(dir) && fetches == old(fetches) && writes == old(writes)
        invariant list == LoadedMods(listing[..i], dir)
        invariant errors == old(errors) + LoadErrors(listing[..i], dir)
      {
        assert listing[..i + 1][..i] == listing[..i];
        var n := listing[i];
        if IsJsonFile(n) {
          match dir[n]
          case Unparseable(reason) =>
            errors := errors + [ParseFailed(reason)];
          case Parsed(mod) =>
            list := list + [mod];
        }
      }
      assert listing[..|listing|] == listing;
    }
  }

  /** A stub saved for a local mod gives way to the real descriptor once it
      is downloaded, and a later ensureExists keeps the real one. */
  method StubReplacementScenario() {
    var updater := new QuickModFilesUpdater((q: QuickMod) => q.name, [], map[]);
    var local := LocalMod("Example", "example", "", "", "instance/mods");
    var file := FileName("Example");
    var first := updater.EnsureExists(local, true);
    assert first.stub && updater.dir[file] == Parsed(first);
    var fetched := QuickMod("Example", "example", "", "", false, ForgeMod, "http://example", []);
    updater.ReceivedMod(Download("http://example", [], ParsedMod(fetched)), true);
    assert updater.dir[file] == Parsed(fetched);
    var second := updater.EnsureExists(local, true);
    assert second == fetched && updater.dir[file] == Parsed(fetched);
  }
}
