/**
 `getImageDetails` (recommend/imageHandler.go:284-301): extract the saved image
 archive into the temporary directory, then read the image description out of
 the extracted files.

 Pulling and saving the image through the container engine is outside the
 model: the saved archive arrives as the entry list the tar reader yields, and
 the extracted files as the documents they hold.
 */
module Inspector {
  import opened Results
  import opened Paths
  import opened Pattern
  import opened Archive
  import opened Manifest

  /** The record `getImageDetails` starts from: only the name is set. */
  function Blank(name: string, inv: Inventory): ImageInfo {
    ImageInfo(name, [], "", "", inv.files, inv.dirs)
  }

  /** `getImageDetails`, up to the hand-over to policy generation. */
  function GetImageDetails(name: string, root: string, archive: seq<Entry>, fs: FileSystem): (r: Result<ImageInfo>)
    ensures Extract(root, archive).Failure? ==> r == Failure(Extract(root, archive).error)
    ensures r.Success? ==>
      && r.value.name == name
      && r.value.fileList == Extract(root, archive).value.files
      && r.value.dirList == Extract(root, archive).value.dirs
  {
    var inv :- Extract(root, archive);
    GetImageInfo(Blank(name, inv), root, fs)
  }

  /** The program's sequence of steps, with the extraction loop and the pattern
      search as they run. */
  method InspectImage(name: string, root: string, archive: seq<Entry>, fs: FileSystem) returns (r: Result<ImageInfo>)
    ensures r == GetImageDetails(name, root, archive, fs)
  {
    var extracted := ExtractTar(root, archive);
    if extracted.Failure? {
      return Failure(extracted.error);
    }
    var img := Blank(name, extracted.value);
    var matches := CheckForSpec(ManifestPattern(root), img.fileList);
    if |matches| != 1 {
      return Failure(ManifestCount(|matches|));
    }
    r := ReadManifest(img, root, matches[0], fs);
  }

  /** A successful inspection lists only guarded paths, and its tags,
      architecture and operating system are those of the one matching
      manifest and the config it names. */
  lemma InspectionSound(name: string, root: string, archive: seq<Entry>, fs: FileSystem)
    requires GetImageDetails(name, root, archive, fs).Success?
    ensures var info := GetImageDetails(name, root, archive, fs).value;
      && Guarded(root, Inventory(info.fileList, info.dirList))
      && NoLayerListed(Inventory(info.fileList, info.dirList))
      && exists k, m, c ::
        (&& 0 <= k < |info.fileList|
         && Matches(ManifestPattern(root), info.fileList[k])
         && Describes(root, info.fileList[k], fs, m, c)
         && info.repoTags == m.repoTags && info.arch == c.architecture && info.os == c.os)
  {
    var inv := Extract(root, archive).value;
    ExtractGuarded(root, archive);
    assert Inventory(inv.files, inv.dirs) == inv;
    var img := Blank(name, inv);
    GetImageInfoSound(img, root, fs);
    var k, m, c :| 0 <= k < |img.fileList| && Matches(ManifestPattern(root), img.fileList[k])
      && Describes(root, img.fileList[k], fs, m, c) && GetImageInfo(img, root, fs) == Success(Applied(img, m, c));
    assert [] + m.repoTags == m.repoTags;
  }

  /** An archive that extracts cleanly, lists exactly one file matching the
      manifest pattern, and whose manifest and config describe an image, is
      inspected to exactly that description. */
  lemma InspectionComplete(name: string, root: string, archive: seq<Entry>, fs: FileSystem,
                           inv: Inventory, manifest: string, m: ManifestRecord, c: ConfigRecord)
    requires Extract(root, archive) == Success(inv)
    requires Filter(ManifestPattern(root), inv.files) == [manifest]
    requires Describes(root, manifest, fs, m, c)
    ensures GetImageDetails(name, root, archive, fs) == Success(ImageInfo(name, m.repoTags, c.architecture, c.os, inv.files, inv.dirs))
  {
    ReadManifestComplete(Blank(name, inv), root, manifest, fs, m, c);
    assert [] + m.repoTags == m.repoTags;
  }
}
