# Image archive inventory and manifest resolution, in Dafny

This project models the image-inspection core of the KubeArmor client's policy
recommender (`recommend/imageHandler.go`). After a container image has been saved
as a tar archive, the program does four things:

1. It extracts the archive into a temporary directory. Each entry name is
   guarded against path traversal by `sanitizeArchivePath`.
2. It recursively extracts every regular file whose name ends in `layer.tar`.
   These are the image layers.
3. It finds the single `manifest.json` in the list of extracted files.
4. It reads that manifest and the config file it names. This fills an
   `ImageInfo` record with the image's name, repository tags, architecture,
   operating system, file list and directory list.

The model is functional:

- `Paths` writes out Go's lexical `filepath.Clean` and `filepath.Join` (Unix
  rules) and `strings.HasPrefix`/`HasSuffix` on `seq<char>`.
- `Sanitizer` is the guard.
- `Archive` models the tar stream as a sequence of entries. A layer archive
  carries the entries it decodes to, so recursion into layers is structural.
  The module gives extraction both as a compositional function and as the
  program's loop, and proves the two equal.
- `Pattern` models the regular expression built from the manifest's path.
- `JsonValues` models decoding into Go's generic maps and the type assertions
  the program makes on them.
- `Manifest` models `checkForSpec`, `readManifest`, `getImageInfo` and the
  `ImageInfo` record (recommend/imageHandler.go:32-39).
- `Inspector` composes extraction and manifest reading as `getImageDetails`
  does.

Every `log.Fatal` and every panicking type assertion becomes a `Failure` with
an `Error` saying which check failed. Refused entry names are the only
condition the extractor recovers from: it skips the entry and carries on.

## Where the code falls short of its zip-slip intent

The guard is a plain string prefix test (line 109), not a test on path
elements. Line 106 states the intent: refuse any entry that would land outside
the extraction root. The prefix test does not reject every name that climbs out
of the root:

- `/tmp/a` with `../ab/x` yields `/tmp/ab/x`, which is accepted
  (`Sanitizer.AcceptsSiblingPrefix`; `Sanitizer.AcceptsSiblingExtension` proves
  the general case).
- Under `/tmp`, `../tmpx/y` yields `/tmpx/y`, which is accepted, although it
  lies in another top-level directory (`Sanitizer.AcceptsSiblingExtension` with
  a one-element root).

The guard gives the same verdict for a root and for its cleaned form, and a
rooted root cleans to an absolute path of plain names
(`Sanitizer.CleanRootSuffices`). The lemmas below are stated for such clean
roots, so they cover every rooted root, `/tmp/` and `//tmp` included.

Under a rooted root, names such as `a/../b` are accepted, because they resolve
to where `b` alone leads (`Sanitizer.AcceptsDetour`, for clean roots). Under a relative root the
result can differ. For example, under `.` the join of `a/../b` is `b`, which
does not start with `.` and is refused (`Sanitizer.RejectsUnderDotRoot` shows
the same effect for `a`).

Under a rooted root, names that climb into a different top-level directory
are refused (`Sanitizer.RejectsClimbToOtherTop`, `Sanitizer.RejectsTraversal`).
The exception is a directory whose name extends a one-element root, as in the
`/tmpx` example above. The model keeps the code's behaviour throughout.

The manifest search is an unanchored regular expression in which `.` is a
wildcard. More than the intended path can therefore match, for example a
listed `manifest.json.bak` next to `manifest.json`. Any second match makes the
image unreadable (`Manifest.ManifestCopyMakesAmbiguous`).

## Model

| member | source | states |
|---|---|---|
| Sanitizer.SanitizeArchivePath | recommend/imageHandler.go:107-114 | accepts exactly when the cleaned root is a string prefix of the joined path; the accepted value is the join, already clean; a refusal names the entry |
| Sanitizer.AcceptsDescendants | recommend/imageHandler.go:107-114 | under a rooted root, every name without ".." elements is accepted and lands on the root or strictly below it |
| Sanitizer.CleanRootSuffices | recommend/imageHandler.go:107-114 | the guard's verdict and value are the same for a non-empty root and for its cleaned form, and a rooted root cleans to an absolute path of plain names |
| Sanitizer.AcceptsDetour | recommend/imageHandler.go:107-114 | under a clean rooted root, a name that enters a directory, leaves it with "..", then follows plain names is accepted, landing exactly where those names alone lead |
| Sanitizer.RejectsClimbToOtherTop | recommend/imageHandler.go:107-114 | a name that climbs at least to the filesystem root and descends into another top-level directory is refused (unless that directory's name merely extends a one-element root) |
| Sanitizer.RejectsTraversal | recommend/imageHandler.go:107-114 | `../../etc/passwd` under `/tmp/x` is refused |
| Sanitizer.AcceptsSiblingExtension | recommend/imageHandler.go:108-110 | stepping up once into a sibling whose name extends the root's last element is accepted, although the target is neither the root nor below it |
| Sanitizer.AcceptsSiblingPrefix | recommend/imageHandler.go:108-110 | `../ab/x` under `/tmp/a` is accepted as `/tmp/ab/x` |
| Sanitizer.RejectsUnderDotRoot | recommend/imageHandler.go:107-114 | with the relative root "." an ordinary name is refused, because the join drops the leading "./" |
| Paths.CleanIdempotent | recommend/imageHandler.go:109 | cleaning a cleaned path changes nothing |
| Paths.JoinIsClean | recommend/imageHandler.go:108 | a non-empty join is already clean |
| Paths.JoinDescends | recommend/imageHandler.go:108-109 | joining a rooted directory with a name free of ".." gives the cleaned directory followed by nothing or by a separator |
| Paths.JoinAbsoluteClimbs | recommend/imageHandler.go:108 | joining an absolute path with m parent references and names climbs m levels, never above the root, then descends |
| Paths.SplitJoin | recommend/imageHandler.go:108 | splitting a join of separator-free pieces at '/' gives the pieces back |
| Paths.JoinSplit | recommend/imageHandler.go:108 | joining the pieces of a split gives the path back |
| Archive.ExtractTar | recommend/imageHandler.go:116-181 | the program's loop, with its two growing lists, early exits and recursion into layers, computes the compositional extraction |
| Archive.ExtractAppend | recommend/imageHandler.go:129-180 | extracting two streams in turn is extracting each and appending both lists; a failure in the first hides the second |
| Archive.ExtractGuarded | recommend/imageHandler.go:138-177 | every listed file and directory passed the guard against the one root and is clean, and no layer archive is listed as a file, at any nesting depth |
| Archive.TaintedEntrySkipped | recommend/imageHandler.go:138-144 | a refused entry is skipped: the archive extracts as if it were absent, so later entries are still processed |
| Archive.DirectoryListedOnce | recommend/imageHandler.go:147-155 | an accepted directory adds its target to the directory list exactly once, at its position, and adds no file |
| Archive.RegularFileListed | recommend/imageHandler.go:175-177 | an accepted regular file that fits the budget and is not a layer adds its target to the file list at its position |
| Archive.LayerSplicedInPlace | recommend/imageHandler.go:171-174 | an accepted layer archive is not listed; the archive extracts as if the layer's own entries stood in its place |
| Archive.OversizedFileFatal | recommend/imageHandler.go:165-169 | an accepted regular file of 200,000,000 bytes or more stops extraction with a copy failure |
| Archive.UnreadableFatal | recommend/imageHandler.go:130-136 | a read error from the tar reader stops extraction |
| Archive.OtherEntryIgnored | recommend/imageHandler.go:146-178 | entries of any other type contribute nothing |
| Archive.ListsOnlyGrow | recommend/imageHandler.go:129-180 | the lists of any prefix of the archive are prefixes of the lists of the whole archive |
| Archive.RepeatedDirectoryKept | recommend/imageHandler.go:155 | a repeated directory entry is listed once per occurrence: nothing is deduplicated |
| Pattern.Find | recommend/imageHandler.go:212-213 | the left-to-right search reports a match exactly when the pattern matches somewhere in the text |
| Pattern.MatchHere | recommend/imageHandler.go:213 | the comparison at one position succeeds exactly when every pattern character matches |
| Pattern.MatchesItself | recommend/imageHandler.go:212-213 | a path without newlines matches itself as a pattern |
| Pattern.MatchesInside | recommend/imageHandler.go:213 | the match is unanchored: text before and after a match does not stop it |
| Pattern.WildcardMatchesAny | recommend/imageHandler.go:212 | a '.' in the pattern matches any character except a newline |
| Pattern.LiteralMatch | recommend/imageHandler.go:212-213 | a pattern without '.' matches exactly the texts that contain it |
| Manifest.CheckForSpec | recommend/imageHandler.go:209-218 | the loop returns the filtered list |
| Manifest.FilterMembers | recommend/imageHandler.go:209-218 | a name is kept exactly when it is listed and matches |
| Manifest.FilterAppend | recommend/imageHandler.go:209-218 | filtering keeps list order: the filter of a concatenation is the concatenation of the filters |
| Manifest.FilterShrinks | recommend/imageHandler.go:209-218 | never more names are kept than were listed |
| Manifest.TwoMatches | recommend/imageHandler.go:209-218 | two matching positions give at least two matches |
| Manifest.FilterNone | recommend/imageHandler.go:209-218 | a list without matches filters to nothing |
| Manifest.ReadWrittenDocument | recommend/imageHandler.go:233-238 | a document written to a path is what reading that path yields, and writing one path does not change what any other path reads |
| Manifest.ReadManifest | recommend/imageHandler.go:231-271 | on success the name, file list and directory list are untouched and the old tags are a prefix of the new |
| Manifest.ReadManifestComplete | recommend/imageHandler.go:231-271 | when the manifest holds exactly one record and the config it names holds both strings, reading sets architecture and OS and appends the tags in order |
| Manifest.ReadManifestSound | recommend/imageHandler.go:231-271 | reading succeeds only on such files, and the result is the description they hold |
| Manifest.ReadManifestExact | recommend/imageHandler.go:231-271 | reading succeeds exactly when the files describe an image |
| Manifest.ReadWrittenManifest | recommend/imageHandler.go:231-271 | writing a manifest and its config and reading them back gives what was written |
| Manifest.NullManifestRejected | recommend/imageHandler.go:239-249 | a manifest that decodes to null holds no record and is refused |
| Manifest.RecordCountChecked | recommend/imageHandler.go:244-249 | a manifest array holding other than one record is refused with its count |
| Manifest.ConfigReadFirst | recommend/imageHandler.go:253-259 | an unreadable config file is the failure reported, whatever the tags hold |
| Manifest.GetImageInfo | recommend/imageHandler.go:273-282 | other than one match is a failure with the count; success reads one listed file that matches |
| Manifest.GetImageInfoSound | recommend/imageHandler.go:273-282 | a success read the one matching listed file, and that file and its config describe the result |
| Manifest.AmbiguousManifestFails | recommend/imageHandler.go:274-280 | two listed files matching the pattern are a failure with a count of at least two |
| Manifest.ManifestCopyMakesAmbiguous | recommend/imageHandler.go:274-280 | a listed file whose path extends the manifest's path makes the image unreadable when the manifest is listed too |
| Manifest.MissingManifestFails | recommend/imageHandler.go:274-280 | no matching file is a failure with count zero |
| JsonValues.DecodeMapListInverse | recommend/imageHandler.go:239-243 | every encoded list of maps decodes back to itself, element by element and in order; every accepted document is null, giving no records, or the encoding of the records it yields |
| JsonValues.DecodeMapInverse | recommend/imageHandler.go:260-264 | every encoded map, nil or not, decodes back to itself, and every accepted document is the encoding of the map it yields |
| JsonValues.StringFieldRoundTrip | recommend/imageHandler.go:265-266 | a string stored under a key is what the type assertion on that key yields, whatever else the map holds |
| JsonValues.StringFieldFrame | recommend/imageHandler.go:265-266 | the assertion depends on its own key only, and writing back a string it read leaves the map unchanged |
| JsonValues.Strings | recommend/imageHandler.go:267-270 | the tags are read exactly when every element is a string, and re-encoding them gives the array back |
| JsonValues.StringsField | recommend/imageHandler.go:267 | the tags field must be present and an array of strings |
| JsonValues.StringsRoundTrip | recommend/imageHandler.go:267-270 | reading back the JSON strings of a list of tags gives the list |
| Inspector.GetImageDetails | recommend/imageHandler.go:284-301 | a failed extraction propagates; a success carries the given name and the extracted lists |
| Inspector.InspectImage | recommend/imageHandler.go:284-301 | the program's sequence of steps computes the composition |
| Inspector.InspectionSound | recommend/imageHandler.go:284-301 | a successful inspection lists only guarded paths, no layer archive, and the tags, architecture and OS of the one matching manifest |
| Inspector.InspectionComplete | recommend/imageHandler.go:284-301 | a cleanly extracting archive with one matching manifest that describes an image is inspected to exactly that description |

## Left out

- The container engine is not modelled: the client set up in `init`, plus `pullImage`, `saveImageToTar` and `imageHandler`. These are network and daemon I/O. The saved archive is an input.
- `getAuthStr` is not modelled. It only reads the environment and calls library encoders.
- `randString` is not modelled. It is random and only names the scratch tar file.
- `getPolicyFromImageInfo` is not part of this model. `GetImageDetails` returns the record that is handed to it, where the program returns nil.
- Filesystem effects are not modelled:
  - opening the archive or a re-opened layer (line 120);
  - `MkdirAll` for directories (lines 149-153);
  - `OpenFile` with the entry's mode (lines 157-162);
  - `os.Stat` for directories (line 148);
  - closing files (lines 97-104).
  A failure to open the archive or a layer, of `MkdirAll` or of `OpenFile` is fatal in the program but absent here. An example is a regular file whose parent directory entry was refused. A failed `os.Stat` only leads to `MkdirAll`, so the model's result is the same whatever it returns. A failed close is only logged.
- File contents are not modelled, only the inventory. So `OpenFile` without truncation is not modelled either: rewriting a longer existing file leaves its old tail in place.
- A layer archive is re-opened from disk after it is written. The model gives its content as the nested entry list it decodes to.
- A layer that writes to itself cannot be expressed, because `Entry` is a finite, well-founded datatype. In the program, a layer can contain an entry whose target is that same layer file. `OpenFile` does not truncate, so a file that is one 512-byte header block repeated rewrites itself unchanged. The program would then re-open it and recurse until a resource (file descriptors, stack or memory) runs out, which is fatal (not demonstrated).
- Byte-level tar decoding is not modelled. A read error from the tar reader is an `Unreadable` entry.
- A truncated entry body is not modelled. In the program, `io.CopyN` returns an unexpected-end error for it, which is fatal.
- JSON text syntax is not modelled. A file's content is its decoded value, and an absent path stands for a file that cannot be read or is not valid JSON. The two program messages for these cases are one error here.
- Numbers keep their text. The program never reads them.
- Pattern.Matches: covers only patterns made of literal characters and '.'. The model assumes the extraction root holds no other regular-expression syntax; the source does not guarantee this. Characters such as `+ * ? ( ) [ ] { } ^ $ |` and `\` in the root are matched literally here. `regexp.MustCompile` at line 211 would read them as syntax, or panic on an invalid pattern.
- Logging is left out. Every `log.Fatal` is a `Failure`, and the one `Error`-level log, for a refused entry, only skips the entry.
- `filepath.Clean` and `Join` are modelled with Unix separators only.
- Sanitizer.RejectsClimbToOtherTop: states refusal only for names made of parent references followed by plain names. Other refused names are covered by `SanitizeArchivePath`'s own iff contract, not by a separate lemma.
