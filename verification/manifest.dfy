/**
 Reading the image description out of the extracted files:
 `checkForSpec` (recommend/imageHandler.go:209-218), `readManifest` (231-271)
 and `getImageInfo` (273-282), which fill the `ImageInfo` record (32-39).

 The extracted files are given as a map from path to the JSON document the
 file holds; a path that is absent from the map is a file that cannot be
 opened, read or decoded as JSON, which the program treats as fatal.
 */
module Manifest {
  import opened Results
  import opened Paths
  import opened JsonValues
  import opened Pattern

  /** The file name `getImageInfo` searches the file list for. */
  const ManifestName: string := "manifest.json"

  const ConfigKey: string := "Config"
  const RepoTagsKey: string := "RepoTags"
  const ArchitectureKey: string := "architecture"
  const OsKey: string := "os"

  /** Extracted files by path, as decoded JSON documents. */
  type FileSystem = map<string, Json>

  /** What the inspector learns about an image. */
  datatype ImageInfo = ImageInfo(
    name: string,
    repoTags: seq<string>,
    arch: string,
    os: string,
    fileList: seq<string>,
    dirList: seq<string>)

  /** Reading and decoding one file; failure is fatal in the program. */
  function ReadDocument(fs: FileSystem, path: string): (r: Result<Json>)
    ensures r.Success? <==> path in fs
    ensures r.Success? ==> r.value == fs[path]
    ensures r.Failure? ==> r.error == FileUnreadable(path)
  {
    if path in fs then Success(fs[path]) else Failure(FileUnreadable(path))
  }

  /** A document written to a path is read back from it, and writing one path
      leaves what every other path reads unchanged. */
  lemma ReadWrittenDocument(fs: FileSystem, path: string, doc: Json, other: string)
    requires other != path
    ensures ReadDocument(fs[path := doc], path) == Success(doc)
    ensures ReadDocument(fs[path := doc], other) == ReadDocument(fs, other)
  {
  }

  // ---------------------------------------------------------------------------
  // checkForSpec

  /** The names that match `spec`, in list order. */
  function Filter(spec: string, names: seq<string>): seq<string>
    decreases |names|
  {
    if names == [] then []
    else (if Matches(spec, names[0]) then [names[0]] else []) + Filter(spec, names[1..])
  }

  /** Exactly the matching names are kept. */
  lemma {:induction false} FilterMembers(spec: string, names: seq<string>)
    ensures forall x :: x in Filter(spec, names) <==> x in names && Matches(spec, x)
    decreases |names|
  {
    if names != [] {
      FilterMembers(spec, names[1..]);
      assert names == [names[0]] + names[1..];
    }
  }

  /** Filtering a concatenation filters each part, keeping the order. */
  lemma {:induction false} FilterAppend(spec: string, a: seq<string>, b: seq<string>)
    ensures Filter(spec, a + b) == Filter(spec, a) + Filter(spec, b)
    decreases |a|
  {
    if a == [] {
      assert a + b == b;
    } else {
      assert (a + b)[0] == a[0];
      assert (a + b)[1..] == a[1..] + b;
      FilterAppend(spec, a[1..], b);
    }
  }

  /** The kept names form a subsequence of the list: never more names than listed. */
  lemma {:induction false} FilterShrinks(spec: string, names: seq<string>)
    ensures |Filter(spec, names)| <= |names|
    decreases |names|
  {
    if names != [] {
      FilterShrinks(spec, names[1..]);
    }
  }

  /** Two matching positions give at least two matches. */
  lemma TwoMatches(spec: string, names: seq<string>, i: nat, j: nat)
    requires i < j < |names|
    requires Matches(spec, names[i]) && Matches(spec, names[j])
    ensures |Filter(spec, names)| >= 2
  {
    assert names == names[..j] + names[j..];
    FilterAppend(spec, names[..j], names[j..]);
    FilterMembers(spec, names[..j]);
    assert names[..j][i] == names[i];
    assert names[i] in Filter(spec, names[..j]);
    assert names[j..][0] == names[j];
  }

  /** The program's loop: compile the pattern once, test every name in turn,
      append the ones that match. */
  method CheckForSpec(spec: string, fl: seq<string>) returns (matches: seq<string>)
    ensures matches == Filter(spec, fl)
  {
    matches := [];
    var i := 0;
    while i < |fl|
      invariant 0 <= i <= |fl|
      invariant matches == Filter(spec, fl[..i])
    {
      var name := fl[i];
      var hit := Find(spec, name);
      assert fl[..i + 1] == fl[..i] + [name];
      FilterAppend(spec, fl[..i], [name]);
      assert [name][1..] == [];
      if hit {
        matches := matches + [name];
      } else {
        assert matches + [] == matches;
      }
      i := i + 1;
    }
    assert fl[..i] == fl;
  }

  // ---------------------------------------------------------------------------
  // readManifest

  /** `readManifest`: decode the manifest, insist on one record, follow its
      `Config` to the config file, and take the architecture, the operating
      system and the repository tags. Failures arrive in the program's order. */
  function ReadManifest(img: ImageInfo, root: string, manifest: string, fs: FileSystem): (r: Result<ImageInfo>)
    ensures r.Success? ==>
      && r.value.name == img.name
      && r.value.fileList == img.fileList
      && r.value.dirList == img.dirList
      && img.repoTags <= r.value.repoTags
  {
    var doc :- ReadDocument(fs, manifest);
    var records :- DecodeMapList(manifest, doc);
    if |records| != 1 then Failure(RecordCount(|records|))
    else
      var configName :- StringField(records[0], ConfigKey);
      var config := Join(root, configName);
      var configDoc :- ReadDocument(fs, config);
      var cfg :- DecodeMap(config, configDoc);
      var arch :- StringField(cfg, ArchitectureKey);
      var os :- StringField(cfg, OsKey);
      var tags :- StringsField(records[0], RepoTagsKey);
      Success(img.(repoTags := img.repoTags + tags, arch := arch, os := os))
  }

  /** The fields of the one manifest record the program reads. */
  datatype ManifestRecord = ManifestRecord(config: string, repoTags: seq<string>)

  /** The fields of the image config the program reads. */
  datatype ConfigRecord = ConfigRecord(architecture: string, os: string)

  predicate RecordHolds(j: Json, m: ManifestRecord) {
    && j.JObject?
    && ConfigKey in j.members && j.members[ConfigKey] == JString(m.config)
    && RepoTagsKey in j.members && j.members[RepoTagsKey] == JArray(JStrings(m.repoTags))
  }

  predicate ConfigHolds(j: Json, c: ConfigRecord) {
    && j.JObject?
    && ArchitectureKey in j.members && j.members[ArchitectureKey] == JString(c.architecture)
    && OsKey in j.members && j.members[OsKey] == JString(c.os)
  }

  /** The manifest file holds exactly one record, `m`, and the config file that
      `m` names (relative to the root) holds `c`. Other members are allowed. */
  predicate Describes(root: string, manifest: string, fs: FileSystem, m: ManifestRecord, c: ConfigRecord) {
    && manifest in fs
    && fs[manifest].JArray? && |fs[manifest].items| == 1
    && RecordHolds(fs[manifest].items[0], m)
    && Join(root, m.config) in fs
    && ConfigHolds(fs[Join(root, m.config)], c)
  }

  /** The image record after reading `m` and `c`: tags appended, architecture
      and operating system set, nothing else touched. */
  function Applied(img: ImageInfo, m: ManifestRecord, c: ConfigRecord): ImageInfo {
    img.(repoTags := img.repoTags + m.repoTags, arch := c.architecture, os := c.os)
  }

  /** Reading succeeds on every pair of files that describes an image, and
      yields that description. */
  lemma ReadManifestComplete(img: ImageInfo, root: string, manifest: string, fs: FileSystem, m: ManifestRecord, c: ConfigRecord)
    requires Describes(root, manifest, fs, m, c)
    ensures ReadManifest(img, root, manifest, fs) == Success(Applied(img, m, c))
  {
    var record := fs[manifest].items[0];
    var records := DecodeMapList(manifest, fs[manifest]);
    assert records.Success? && |records.value| == 1 && records.value[0] == GoMapOf(record.members);
    var config := Join(root, m.config);
    assert DecodeMap(config, fs[config]) == Success(GoMapOf(fs[config].members));
    StringsRoundTrip(RepoTagsKey, m.repoTags);
  }

  /** Reading succeeds only when the files describe an image, and the result
      is that description applied to the record. */
  lemma ReadManifestSound(img: ImageInfo, root: string, manifest: string, fs: FileSystem)
    requires ReadManifest(img, root, manifest, fs).Success?
    ensures exists m, c ::
      (Describes(root, manifest, fs, m, c) && ReadManifest(img, root, manifest, fs) == Success(Applied(img, m, c)))
  {
    var records := DecodeMapList(manifest, fs[manifest]).value;
    var record := records[0];
    var configName := StringField(record, ConfigKey).value;
    var config := Join(root, configName);
    var cfg := DecodeMap(config, fs[config]).value;
    var tags := StringsField(record, RepoTagsKey).value;
    var m := ManifestRecord(configName, tags);
    var c := ConfigRecord(StringField(cfg, ArchitectureKey).value, StringField(cfg, OsKey).value);
    assert fs[manifest].JArray? && records[0] == MapOf(fs[manifest].items[0]);
    assert Has(record, ConfigKey);
    assert fs[manifest].items[0].JObject?;
    assert Describes(root, manifest, fs, m, c);
  }

  /** The success of reading is exactly the existence of a description. */
  lemma ReadManifestExact(img: ImageInfo, root: string, manifest: string, fs: FileSystem)
    ensures ReadManifest(img, root, manifest, fs).Success? <==> exists m, c :: Describes(root, manifest, fs, m, c)
  {
    if ReadManifest(img, root, manifest, fs).Success? {
      ReadManifestSound(img, root, manifest, fs);
    }
    if exists m, c :: Describes(root, manifest, fs, m, c) {
      var m, c :| Describes(root, manifest, fs, m, c);
      ReadManifestComplete(img, root, manifest, fs, m, c);
    }
  }

  /** The manifest document that holds just `m`. */
  function ManifestDocument(m: ManifestRecord): Json {
    JArray([JObject(map[ConfigKey := JString(m.config), RepoTagsKey := JArray(JStrings(m.repoTags))])])
  }

  /** The config document that holds just `c`. */
  function ConfigDocument(c: ConfigRecord): Json {
    JObject(map[ArchitectureKey := JString(c.architecture), OsKey := JString(c.os)])
  }

  /** Writing a manifest and its config and reading them back gives the
      record and config that were written. */
  lemma ReadWrittenManifest(img: ImageInfo, root: string, manifest: string, fs: FileSystem, m: ManifestRecord, c: ConfigRecord)
    requires manifest != Join(root, m.config)
    ensures var written := fs[manifest := ManifestDocument(m)][Join(root, m.config) := ConfigDocument(c)];
      ReadManifest(img, root, manifest, written) == Success(Applied(img, m, c))
  {
    var written := fs[manifest := ManifestDocument(m)][Join(root, m.config) := ConfigDocument(c)];
    assert Describes(root, manifest, written, m, c);
    ReadManifestComplete(img, root, manifest, written, m, c);
  }

  /** A manifest that decodes to null holds no record. */
  lemma NullManifestRejected(img: ImageInfo, root: string, manifest: string, fs: FileSystem)
    requires manifest in fs && fs[manifest] == JNull
    ensures ReadManifest(img, root, manifest, fs) == Failure(RecordCount(0))
  {
  }

  /** A manifest array of decodable records must hold exactly one of them. */
  lemma RecordCountChecked(img: ImageInfo, root: string, manifest: string, fs: FileSystem)
    requires manifest in fs && fs[manifest].JArray?
    requires forall i :: 0 <= i < |fs[manifest].items| ==> DecodesToMap(fs[manifest].items[i])
    requires |fs[manifest].items| != 1
    ensures ReadManifest(img, root, manifest, fs) == Failure(RecordCount(|fs[manifest].items|))
  {
  }

  /** The config file is read before the repository tags are looked at: when it
      cannot be read, that is the failure, whatever the tags hold. */
  lemma ConfigReadFirst(img: ImageInfo, root: string, manifest: string, fs: FileSystem, config: string)
    requires manifest in fs && fs[manifest].JArray? && |fs[manifest].items| == 1
    requires fs[manifest].items[0].JObject?
    requires ConfigKey in fs[manifest].items[0].members
    requires fs[manifest].items[0].members[ConfigKey] == JString(config)
    requires Join(root, config) !in fs
    ensures ReadManifest(img, root, manifest, fs) == Failure(FileUnreadable(Join(root, config)))
  {
    assert DecodeMapList(manifest, fs[manifest]).value[0] == GoMapOf(fs[manifest].items[0].members);
  }

  // ---------------------------------------------------------------------------
  // getImageInfo

  /** The pattern `getImageInfo` compiles: the manifest's path under the root. */
  function ManifestPattern(root: string): string {
    Join(root, ManifestName)
  }

  /** `getImageInfo`: exactly one listed file may match the manifest pattern,
      and that file is read as the manifest. */
  function GetImageInfo(img: ImageInfo, root: string, fs: FileSystem): (r: Result<ImageInfo>)
    ensures var found := Filter(ManifestPattern(root), img.fileList);
      |found| != 1 ==> r == Failure(ManifestCount(|found|))
    ensures r.Success? ==> exists k ::
      (0 <= k < |img.fileList| && Matches(ManifestPattern(root), img.fileList[k])
       && r == ReadManifest(img, root, img.fileList[k], fs))
  {
    var found := Filter(ManifestPattern(root), img.fileList);
    if |found| != 1 then Failure(ManifestCount(|found|))
    else
      FilterMembers(ManifestPattern(root), img.fileList);
      assert found[0] in found;
      ReadManifest(img, root, found[0], fs)
  }

  /** A successful `getImageInfo` read the one listed file that matches the
      pattern, and that file and the config it names describe the image. */
  lemma GetImageInfoSound(img: ImageInfo, root: string, fs: FileSystem)
    requires GetImageInfo(img, root, fs).Success?
    ensures exists k, m, c ::
      (&& 0 <= k < |img.fileList|
       && Matches(ManifestPattern(root), img.fileList[k])
       && Describes(root, img.fileList[k], fs, m, c)
       && GetImageInfo(img, root, fs) == Success(Applied(img, m, c)))
  {
    var k :| 0 <= k < |img.fileList| && Matches(ManifestPattern(root), img.fileList[k])
      && GetImageInfo(img, root, fs) == ReadManifest(img, root, img.fileList[k], fs);
    ReadManifestSound(img, root, img.fileList[k], fs);
  }

  /** Two listed files matching the pattern make the image unreadable, even if
      one of them is the real manifest. */
  lemma AmbiguousManifestFails(img: ImageInfo, root: string, fs: FileSystem, i: nat, j: nat)
    requires i < j < |img.fileList|
    requires Matches(ManifestPattern(root), img.fileList[i])
    requires Matches(ManifestPattern(root), img.fileList[j])
    ensures GetImageInfo(img, root, fs).Failure?
    ensures GetImageInfo(img, root, fs).error.ManifestCount? && GetImageInfo(img, root, fs).error.found >= 2
  {
    TwoMatches(ManifestPattern(root), img.fileList, i, j);
  }

  /** The match is unanchored: a listed copy whose path only starts with the
      manifest's path (a backup such as `manifest.json.bak`) counts as a
      second manifest. */
  lemma ManifestCopyMakesAmbiguous(img: ImageInfo, root: string, fs: FileSystem, i: nat, j: nat, suffix: string)
    requires '\n' !in ManifestPattern(root)
    requires i < |img.fileList| && j < |img.fileList| && i != j
    requires img.fileList[i] == ManifestPattern(root)
    requires img.fileList[j] == ManifestPattern(root) + suffix
    ensures GetImageInfo(img, root, fs).Failure?
  {
    CopyMatchesTwice(ManifestPattern(root), img.fileList, i, j, suffix);
  }

  /** A list holding a newline-free pattern's own text and that text extended
      has two matches. */
  lemma CopyMatchesTwice(spec: string, names: seq<string>, i: nat, j: nat, suffix: string)
    requires '\n' !in spec
    requires i < |names| && j < |names| && i != j
    requires names[i] == spec && names[j] == spec + suffix
    ensures |Filter(spec, names)| >= 2
  {
    MatchesItself(spec);
    MatchesInside(spec, [], spec, suffix);
    assert [] + spec + suffix == spec + suffix;
    if i < j {
      TwoMatches(spec, names, i, j);
    } else {
      TwoMatches(spec, names, j, i);
    }
  }

  /** No listed file matching the pattern means no manifest. */
  lemma MissingManifestFails(img: ImageInfo, root: string, fs: FileSystem)
    requires forall k :: 0 <= k < |img.fileList| ==> !Matches(ManifestPattern(root), img.fileList[k])
    ensures GetImageInfo(img, root, fs) == Failure(ManifestCount(0))
  {
    FilterNone(ManifestPattern(root), img.fileList);
  }

  /** Nothing is kept from a list without matches. */
  lemma {:induction false} FilterNone(spec: string, names: seq<string>)
    requires forall k :: 0 <= k < |names| ==> !Matches(spec, names[k])
    ensures Filter(spec, names) == []
    decreases |names|
  {
    if names != [] {
      assert forall k :: 0 <= k < |names[1..]| ==> names[1..][k] == names[k + 1];
      FilterNone(spec, names[1..]);
    }
  }
}
