/**
 The inventory fold `extractTar` (recommend/imageHandler.go:116-181).

 A tar stream is modelled as the sequence of entries the tar reader yields.
 A regular file whose sanitised target ends in "layer.tar" is itself a tar
 archive; the program writes it out and immediately extracts it into the same
 root, so its content is carried here as the nested entry list it decodes to.
 Every name, nested or not, is sanitised against the one extraction root.

 `Extract` is the compositional definition (each entry's contribution, then the
 rest); `ExtractTar` follows the program's loop with its two growing lists, and
 is proved to compute the same result.
 */
module Archive {
  import opened Results
  import opened Paths
  import opened Sanitizer

  /** The byte budget io.CopyN is given for one file (2e+8). */
  const MaxFileBytes: nat := 200_000_000

  /** The suffix that marks a nested image layer archive. */
  const LayerSuffix: string := "layer.tar"

  datatype Entry =
    | Dir(name: string)
    | Reg(name: string, size: nat, nested: seq<Entry>)   // `nested`: what the file decodes to when it is a layer
    | Other(name: string)                                 // symlinks, hard links, devices, ...: ignored
    | Unreadable                                          // the reader fails with something other than end of archive

  /** The two lists the extractor returns: regular files and directories. */
  datatype Inventory = Inventory(files: seq<string>, dirs: seq<string>)

  const Empty: Inventory := Inventory([], [])

  function Concat(a: Inventory, b: Inventory): Inventory {
    Inventory(a.files + b.files, a.dirs + b.dirs)
  }

  predicate IsLayer(target: string) {
    HasSuffix(target, LayerSuffix)
  }

  /** Every listed path passed the guard: the cleaned root is a string prefix
      of it, and it is already clean. */
  predicate Guarded(root: string, inv: Inventory) {
    && (forall p :: p in inv.files ==> HasPrefix(p, Clean(root)) && Clean(p) == p)
    && (forall p :: p in inv.dirs ==> HasPrefix(p, Clean(root)) && Clean(p) == p)
  }

  /** No layer archive is listed as a file: layers are replaced by their content. */
  predicate NoLayerListed(inv: Inventory) {
    forall p :: p in inv.files ==> !IsLayer(p)
  }

  /** Sequencing two extraction results: the first failure wins, otherwise the
      lists are appended. */
  function Then(a: Result<Inventory>, b: Result<Inventory>): Result<Inventory> {
    if a.Failure? then a
    else if b.Failure? then b
    else Success(Concat(a.value, b.value))
  }

  /** What one entry contributes. */
  function ExtractEntry(root: string, e: Entry): Result<Inventory>
    decreases e
  {
    match e
    case Unreadable => Failure(TarReadFailed)
    case Other(_) => Success(Empty)
    case Dir(name) =>
      var s := SanitizeArchivePath(root, name);
      if s.Failure? then Success(Empty)
      else Success(Inventory([], [s.value]))
    case Reg(name, size, nested) =>
      var s := SanitizeArchivePath(root, name);
      if s.Failure? then Success(Empty)
      else if size >= MaxFileBytes then Failure(CopyFailed(s.value))
      else if IsLayer(s.value) then Extract(root, nested)
      else Success(Inventory([s.value], []))
  }

  /** `extractTar` over a whole stream. */
  function Extract(root: string, entries: seq<Entry>): Result<Inventory>
    decreases entries
  {
    if entries == [] then Success(Empty)
    else Then(ExtractEntry(root, entries[0]), Extract(root, entries[1..]))
  }

  /** Whatever an entry contributes passed the guard, and is not a layer archive. */
  lemma {:induction false} EntryGuarded(root: string, e: Entry)
    ensures var r := ExtractEntry(root, e);
      r.Success? ==> Guarded(root, r.value) && NoLayerListed(r.value)
    decreases e
  {
    if e.Reg? && SanitizeArchivePath(root, e.name).Success? {
      ExtractGuarded(root, e.nested);
    }
  }

  /** Every path the extractor lists passed the guard, is clean, and no layer
      archive is listed as a file. */
  lemma {:induction false} ExtractGuarded(root: string, entries: seq<Entry>)
    ensures var r := Extract(root, entries);
      r.Success? ==> Guarded(root, r.value) && NoLayerListed(r.value)
    decreases entries
  {
    if entries != [] {
      EntryGuarded(root, entries[0]);
      ExtractGuarded(root, entries[1..]);
    }
  }

  // ---------------------------------------------------------------------------
  // Extraction is compositional.

  lemma ThenAssociative(a: Result<Inventory>, b: Result<Inventory>, c: Result<Inventory>)
    ensures Then(Then(a, b), c) == Then(a, Then(b, c))
  {
    if a.Success? && b.Success? && c.Success? {
      assert a.value.files + b.value.files + c.value.files == a.value.files + (b.value.files + c.value.files);
      assert a.value.dirs + b.value.dirs + c.value.dirs == a.value.dirs + (b.value.dirs + c.value.dirs);
    }
  }

  lemma ThenEmpty(a: Result<Inventory>)
    ensures Then(Success(Empty), a) == a
    ensures Then(a, Success(Empty)) == a
  {
    if a.Success? {
      assert Concat(a.value, Empty) == a.value by {
        assert a.value.files + [] == a.value.files;
        assert a.value.dirs + [] == a.value.dirs;
      }
      assert Concat(Empty, a.value) == a.value by {
        assert [] + a.value.files == a.value.files;
        assert [] + a.value.dirs == a.value.dirs;
      }
    }
  }

  /** Extracting two streams one after the other is extracting each and
      appending the lists; a failure in the first hides the second. */
  lemma {:induction false} ExtractAppend(root: string, a: seq<Entry>, b: seq<Entry>)
    ensures Extract(root, a + b) == Then(Extract(root, a), Extract(root, b))
    decreases |a|
  {
    if a == [] {
      assert a + b == b;
      ThenEmpty(Extract(root, b));
    } else {
      assert (a + b)[0] == a[0];
      assert (a + b)[1..] == a[1..] + b;
      ExtractAppend(root, a[1..], b);
      ThenAssociative(ExtractEntry(root, a[0]), Extract(root, a[1..]), Extract(root, b));
    }
  }

  /** A directory contribution between two successful results. */
  lemma DirBetween(whole: Result<Inventory>, a: Result<Inventory>, t: string, c: Result<Inventory>)
    requires a.Success? && c.Success?
    requires whole == Then(a, Then(Success(Inventory([], [t])), c))
    ensures whole.Success?
    ensures whole.value.files == a.value.files + c.value.files
    ensures whole.value.dirs == a.value.dirs + [t] + c.value.dirs
  {
    assert [] + c.value.files == c.value.files;
    assert a.value.dirs + ([t] + c.value.dirs) == a.value.dirs + [t] + c.value.dirs;
  }

  /** A file contribution between two successful results. */
  lemma FileBetween(whole: Result<Inventory>, a: Result<Inventory>, t: string, c: Result<Inventory>)
    requires a.Success? && c.Success?
    requires whole == Then(a, Then(Success(Inventory([t], [])), c))
    ensures whole.Success?
    ensures whole.value.files == a.value.files + [t] + c.value.files
    ensures whole.value.dirs == a.value.dirs + c.value.dirs
  {
    assert [] + c.value.dirs == c.value.dirs;
    assert a.value.files + ([t] + c.value.files) == a.value.files + [t] + c.value.files;
  }

  lemma ExtractSingle(root: string, e: Entry)
    ensures Extract(root, [e]) == ExtractEntry(root, e)
  {
    assert [e][1..] == [];
    ThenEmpty(ExtractEntry(root, e));
  }

  /** Extraction around one entry: what comes before, that entry, what comes after. */
  lemma ExtractAround(root: string, before: seq<Entry>, e: Entry, after: seq<Entry>)
    ensures Extract(root, before + [e] + after)
      == Then(Extract(root, before), Then(ExtractEntry(root, e), Extract(root, after)))
  {
    ExtractAppend(root, before + [e], after);
    ExtractAppend(root, before, [e]);
    ExtractSingle(root, e);
    ThenAssociative(Extract(root, before), ExtractEntry(root, e), Extract(root, after));
  }

  // ---------------------------------------------------------------------------
  // The behaviour of each kind of entry, wherever it sits in the stream.

  /** An entry whose name the guard refuses is skipped: the stream extracts as
      if it were absent, so the entries after it are still processed. */
  lemma TaintedEntrySkipped(root: string, before: seq<Entry>, e: Entry, after: seq<Entry>)
    requires !e.Unreadable?
    requires SanitizeArchivePath(root, e.name).Failure?
    ensures Extract(root, before + [e] + after) == Extract(root, before + after)
  {
    ExtractAround(root, before, e, after);
    ThenEmpty(Extract(root, after));
    ExtractAppend(root, before, after);
  }

  /** Entries of any other type are ignored. */
  lemma OtherEntryIgnored(root: string, before: seq<Entry>, name: string, after: seq<Entry>)
    ensures Extract(root, before + [Other(name)] + after) == Extract(root, before + after)
  {
    ExtractAround(root, before, Other(name), after);
    ThenEmpty(Extract(root, after));
    ExtractAppend(root, before, after);
  }

  lemma DirContribution(root: string, name: string)
    requires SanitizeArchivePath(root, name).Success?
    ensures ExtractEntry(root, Dir(name)) == Success(Inventory([], [SanitizeArchivePath(root, name).value]))
  {
  }

  lemma FileContribution(root: string, name: string, size: nat, nested: seq<Entry>)
    requires SanitizeArchivePath(root, name).Success?
    requires size < MaxFileBytes
    requires !IsLayer(SanitizeArchivePath(root, name).value)
    ensures ExtractEntry(root, Reg(name, size, nested)) == Success(Inventory([SanitizeArchivePath(root, name).value], []))
  {
  }

  /** An accepted directory entry adds its target to the directory list exactly
      once, at its position, and adds no file. */
  lemma DirectoryListedOnce(root: string, before: seq<Entry>, name: string, after: seq<Entry>)
    requires SanitizeArchivePath(root, name).Success?
    requires Extract(root, before).Success? && Extract(root, after).Success?
    ensures var r := Extract(root, before + [Dir(name)] + after);
      && r.Success?
      && r.value.files == Extract(root, before).value.files + Extract(root, after).value.files
      && r.value.dirs == Extract(root, before).value.dirs + [SanitizeArchivePath(root, name).value] + Extract(root, after).value.dirs
  {
    var t := SanitizeArchivePath(root, name).value;
    var whole := Extract(root, before + [Dir(name)] + after);
    assert whole == Then(Extract(root, before), Then(Success(Inventory([], [t])), Extract(root, after))) by {
      DirContribution(root, name);
      ExtractAround(root, before, Dir(name), after);
    }
    DirBetween(whole, Extract(root, before), t, Extract(root, after));
  }

  /** An accepted regular file that is not a layer, and fits the byte budget,
      adds its target to the file list at its position. */
  lemma RegularFileListed(root: string, before: seq<Entry>, name: string, size: nat, nested: seq<Entry>, after: seq<Entry>)
    requires SanitizeArchivePath(root, name).Success?
    requires size < MaxFileBytes
    requires !IsLayer(SanitizeArchivePath(root, name).value)
    requires Extract(root, before).Success? && Extract(root, after).Success?
    ensures var r := Extract(root, before + [Reg(name, size, nested)] + after);
      && r.Success?
      && r.value.files == Extract(root, before).value.files + [SanitizeArchivePath(root, name).value] + Extract(root, after).value.files
      && r.value.dirs == Extract(root, before).value.dirs + Extract(root, after).value.dirs
  {
    var t := SanitizeArchivePath(root, name).value;
    var whole := Extract(root, before + [Reg(name, size, nested)] + after);
    assert whole == Then(Extract(root, before), Then(Success(Inventory([t], [])), Extract(root, after))) by {
      FileContribution(root, name, size, nested);
      ExtractAround(root, before, Reg(name, size, nested), after);
    }
    FileBetween(whole, Extract(root, before), t, Extract(root, after));
  }

  /** An accepted layer archive is not listed itself: extracting the stream is
      extracting it with the layer's own entries spliced in at its place. */
  lemma LayerSplicedInPlace(root: string, before: seq<Entry>, name: string, size: nat, nested: seq<Entry>, after: seq<Entry>)
    requires SanitizeArchivePath(root, name).Success?
    requires size < MaxFileBytes
    requires IsLayer(SanitizeArchivePath(root, name).value)
    ensures Extract(root, before + [Reg(name, size, nested)] + after) == Extract(root, before + nested + after)
  {
    ExtractAround(root, before, Reg(name, size, nested), after);
    ExtractAppend(root, before + nested, after);
    ExtractAppend(root, before, nested);
    ThenAssociative(Extract(root, before), Extract(root, nested), Extract(root, after));
  }

  /** An accepted regular file of 200,000,000 bytes or more stops extraction:
      io.CopyN fills its budget without reaching the end of the entry. */
  lemma OversizedFileFatal(root: string, before: seq<Entry>, name: string, size: nat, nested: seq<Entry>, after: seq<Entry>)
    requires SanitizeArchivePath(root, name).Success?
    requires size >= MaxFileBytes
    requires Extract(root, before).Success?
    ensures Extract(root, before + [Reg(name, size, nested)] + after)
      == Failure(CopyFailed(SanitizeArchivePath(root, name).value))
  {
    ExtractAround(root, before, Reg(name, size, nested), after);
  }

  /** A read error from the tar reader stops extraction. */
  lemma UnreadableFatal(root: string, before: seq<Entry>, after: seq<Entry>)
    requires Extract(root, before).Success?
    ensures Extract(root, before + [Unreadable] + after) == Failure(TarReadFailed)
  {
    ExtractAround(root, before, Unreadable, after);
  }

  /** Nothing is deduplicated: a directory entry repeated in the archive is
      listed once per occurrence. */
  lemma RepeatedDirectoryKept(root: string, name: string)
    requires SanitizeArchivePath(root, name).Success?
    ensures var t := SanitizeArchivePath(root, name).value;
      Extract(root, [Dir(name), Dir(name)]) == Success(Inventory([], [t, t]))
  {
    var t := SanitizeArchivePath(root, name).value;
    assert Extract(root, [Dir(name)]) == Success(Inventory([], [t])) by {
      ExtractSingle(root, Dir(name));
      DirContribution(root, name);
    }
    DirectoryListedOnce(root, [Dir(name)], name, []);
    assert [Dir(name)] + [Dir(name)] + [] == [Dir(name), Dir(name)];
    assert [t] + [t] + [] == [t, t];
  }

  /** The lists only grow: extracting a longer stream keeps the lists of any
      prefix of it as prefixes, in order. */
  lemma ListsOnlyGrow(root: string, a: seq<Entry>, b: seq<Entry>)
    requires Extract(root, a + b).Success?
    ensures Extract(root, a).Success?
    ensures Extract(root, a).value.files <= Extract(root, a + b).value.files
    ensures Extract(root, a).value.dirs <= Extract(root, a + b).value.dirs
  {
    ExtractAppend(root, a, b);
  }

  // ---------------------------------------------------------------------------
  // The program's loop.

  /** One iteration of the loop: the prefix grows by one entry, and the whole
      stream is that prefix followed by the remaining entries. */
  lemma ExtractStep(root: string, entries: seq<Entry>, i: nat)
    requires i < |entries|
    ensures Extract(root, entries[..i + 1]) == Then(Extract(root, entries[..i]), ExtractEntry(root, entries[i]))
    ensures Extract(root, entries) == Then(Extract(root, entries[..i + 1]), Extract(root, entries[i + 1..]))
  {
    assert entries[..i + 1] == entries[..i] + [entries[i]];
    assert entries == entries[..i + 1] + entries[i + 1..];
    ExtractAppend(root, entries[..i], [entries[i]]);
    ExtractSingle(root, entries[i]);
    ExtractAppend(root, entries[..i + 1], entries[i + 1..]);
  }

  /** `extractTar`, as the program runs it: one pass over the entries, growing
      the file and directory lists, stopping at the first fatal condition and
      recursing into each layer archive as soon as it is written. */
  method ExtractTar(root: string, entries: seq<Entry>) returns (r: Result<Inventory>)
    ensures r == Extract(root, entries)
    decreases entries
  {
    var files: seq<string> := [];
    var dirs: seq<string> := [];
    var i := 0;
    while i < |entries|
      invariant 0 <= i <= |entries|
      invariant Extract(root, entries[..i]) == Success(Inventory(files, dirs))
    {
      var e := entries[i];
      ExtractStep(root, entries, i);
      match e {
        case Unreadable =>
          return Failure(TarReadFailed);
        case Other(_) =>
          assert Concat(Inventory(files, dirs), Empty) == Inventory(files, dirs);
        case Dir(name) =>
          var s := SanitizeArchivePath(root, name);
          if s.Success? {
            assert files + [] == files;
            dirs := dirs + [s.value];
          } else {
            assert Concat(Inventory(files, dirs), Empty) == Inventory(files, dirs);
          }
        case Reg(name, size, nested) =>
          var s := SanitizeArchivePath(root, name);
          if s.Success? {
            var target := s.value;
            if size >= MaxFileBytes {
              return Failure(CopyFailed(target));
            }
            if IsLayer(target) {
              var inner := ExtractTar(root, nested);
              if inner.Failure? {
                return Failure(inner.error);
              }
              files := files + inner.value.files;
              dirs := dirs + inner.value.dirs;
            } else {
              assert dirs + [] == dirs;
              files := files + [target];
            }
          } else {
            assert Concat(Inventory(files, dirs), Empty) == Inventory(files, dirs);
          }
      }
      i := i + 1;
    }
    assert entries[..i] == entries;
    return Success(Inventory(files, dirs));
  }
}
