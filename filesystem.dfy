/**
 * The report store as a value. The service reads a root folder `报告`
 * holding one sub-folder per date key; each sub-folder holds report files.
 * The outcome of every file-system call the service makes is part of the
 * value: whether the root exists and can be listed, whether an entry can
 * be stat-ed and is a directory, whether a directory can be listed, and
 * whether a file can be stat-ed and read.
 */
module FileSystem {
  import opened JsString

  /** A file: byte size, modification time (an opaque clock value), text content, and whether `statSync`/`readFileSync` succeed on it. */
  datatype FileMeta = FileMeta(size: nat, mtime: int, content: string, readable: bool)

  /** One entry of the root folder, as `statSync` and `readdirSync` see it. */
  datatype Entry =
    | Directory(files: map<string, FileMeta>)
    | UnreadableDirectory
    | NotDirectory
    | Unstatable

  /** The root folder: absent, present but not listable, or listed. */
  datatype Root =
    | Missing
    | Unlistable
    | Listed(entries: map<string, Entry>)

  /** The file-name test of both scanners: `file.endsWith('.md')`. */
  predicate IsMarkdown(name: string) {
    EndsWith(name, ".md")
  }

  function MarkdownNames(files: map<string, FileMeta>): set<string> {
    set f | f in files.Keys && IsMarkdown(f)
  }

  /** The entries that `statSync(...).isDirectory()` accepts. */
  function DirectoryNames(entries: map<string, Entry>): set<string> {
    set d | d in entries.Keys && entries[d].Directory?
  }

  /** `readdirSync` on some directory entry, or `statSync` on some entry, throws. */
  predicate ListingThrows(entries: map<string, Entry>) {
    exists d :: d in entries && (entries[d].Unstatable? || entries[d].UnreadableDirectory?)
  }

  /** A report file that the full scan stats and reads cannot be read. */
  predicate ReadingThrows(entries: map<string, Entry>) {
    exists d, f :: d in entries && entries[d].Directory? && f in entries[d].files
      && IsMarkdown(f) && !entries[d].files[f].readable
  }

  /** The number of report files in a date folder (0 for anything else). */
  function MarkdownCount(entries: map<string, Entry>, d: string): nat {
    if d in entries && entries[d].Directory? then |MarkdownNames(entries[d].files)| else 0
  }
}
