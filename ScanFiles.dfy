/**
  v1/scan-translation-files.php: the listing of the `translationfiles`
  directory.  Entries are visited in directory order; dot entries,
  directories, hidden files and files whose lower-cased extension is not one
  of eight document types are skipped, and the rest are listed with their
  count.

  The directory is abstracted to the sequence of entries the iterator yields.
*/
module ScanFiles {
  const AllowedExtensions: seq<string> := ["txt", "docx", "xlsx", "pptx", "html", "xml", "json", "csv"]

  /** What `DirectoryIterator` reports about one entry. */
  datatype DirEntry = DirEntry(name: string, isDot: bool, isDir: bool, size: int, mtime: int, path: string)

  /** One entry of the `files` list of the response. */
  datatype FileInfo = FileInfo(name: string, size: int, extension: string, modified: int, path: string)

  /** The position of the last '.' of a name, or -1 when there is none. */
  function LastDot(s: string): (r: int)
    ensures -1 <= r < |s|
    ensures r >= 0 ==> s[r] == '.'
    ensures forall j :: r < j < |s| ==> s[j] != '.'
  {
    if s == [] then -1
    else if s[|s| - 1] == '.' then |s| - 1
    else LastDot(s[..|s| - 1])
  }

  /** `getExtension()`: what follows the last '.' of the name, or "" when
      there is no '.'. */
  function Extension(name: string): (ext: string)
    ensures '.' !in ext
    ensures '.' !in name ==> ext == ""
    ensures '.' in name ==> |ext| < |name| && name[|name| - |ext| - 1..] == "." + ext
  {
    var dot := LastDot(name);
    if dot < 0 then ""
    else
      assert name[dot..] == "." + name[dot + 1..];
      name[dot + 1..]
  }

  function LowerChar(c: char): char
  {
    if 'A' <= c <= 'Z' then (c as int + 32) as char else c
  }

  /** `strtolower` on ASCII letters. */
  function ToLower(s: string): (r: string)
    ensures |r| == |s|
    ensures forall i :: 0 <= i < |s| ==> r[i] == LowerChar(s[i])
  {
    seq(|s|, i requires 0 <= i < |s| => LowerChar(s[i]))
  }

  /** Whether the loop lists an entry. */
  predicate Listed(e: DirEntry)
  {
    && !e.isDot && !e.isDir
    && !(|e.name| > 0 && e.name[0] == '.')
    && ToLower(Extension(e.name)) in AllowedExtensions
  }

  function Describe(e: DirEntry): FileInfo
  {
    FileInfo(e.name, e.size, ToLower(Extension(e.name)), e.mtime, e.path)
  }

  /** The `files` the scan returns for a sequence of directory entries. */
  function ListedFiles(entries: seq<DirEntry>): (files: seq<FileInfo>)
    ensures |files| <= |entries|
  {
    if entries == [] then []
    else
      var last := entries[|entries| - 1];
      ListedFiles(entries[..|entries| - 1]) + (if Listed(last) then [Describe(last)] else [])
  }

  /** The scan loop over the directory: files in iteration order, and their
      count. */
  method ScanTranslationFiles(entries: seq<DirEntry>) returns (files: seq<FileInfo>, count: nat)
    ensures files == ListedFiles(entries)
    ensures count == |files| <= |entries|
  {
    files := [];
    for i := 0 to |entries|
      invariant files == ListedFiles(entries[..i])
    {
      assert entries[..i + 1][..i] == entries[..i];
      var fileInfo := entries[i];
      if fileInfo.isDot || fileInfo.isDir {
        continue;
      }
      var filename := fileInfo.name;
      var extension := ToLower(Extension(fileInfo.name));
      if (|filename| > 0 && filename[0] == '.') || extension !in AllowedExtensions {
        continue;
      }
      files := files + [FileInfo(filename, fileInfo.size, extension, fileInfo.mtime, fileInfo.path)];
    }
    assert entries[..|entries|] == entries;
    count := |files|;
  }

  /** Listing a directory read in two parts lists the first part's files
      and then the second's: iteration order is kept. */
  lemma {:induction false} ListedFilesAppend(a: seq<DirEntry>, b: seq<DirEntry>)
    ensures ListedFiles(a + b) == ListedFiles(a) + ListedFiles(b)
    decreases |b|
  {
    if b == [] {
      assert a + b == a;
    } else {
      var init := b[..|b| - 1];
      ListedFilesAppend(a, init);
      assert (a + b)[..|a + b| - 1] == a + init;
    }
  }

  /** Every listed file comes from an entry that is a regular, non-hidden
      file with an allowed extension, and every such entry is listed. */
  lemma {:induction false} ListedFilesExactly(entries: seq<DirEntry>)
    ensures forall f :: f in ListedFiles(entries) ==>
              exists e :: e in entries && Listed(e) && f == Describe(e)
    ensures forall e :: e in entries && Listed(e) ==> Describe(e) in ListedFiles(entries)
  {
    if entries != [] {
      var init := entries[..|entries| - 1];
      ListedFilesExactly(init);
      assert entries == init + [entries[|entries| - 1]];
      forall f | f in ListedFiles(entries)
        ensures exists e :: e in entries && Listed(e) && f == Describe(e)
      {
        if f in ListedFiles(init) {
          var e :| e in init && Listed(e) && f == Describe(e);
          assert e in entries;
        } else {
          assert entries[|entries| - 1] in entries;
        }
      }
    }
  }

  /** What a listed file carries: not hidden, and an extension that is one of
      the eight, in lower case. */
  lemma ListedFileShape(entries: seq<DirEntry>, f: FileInfo)
    requires f in ListedFiles(entries)
    ensures f.extension in AllowedExtensions
    ensures f.name == [] || f.name[0] != '.'
    ensures f.extension == ToLower(Extension(f.name))
  {
    ListedFilesExactly(entries);
  }
}
