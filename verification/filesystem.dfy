/**
 * The file system as the resolver observes it. Each path yields two
 * independent observations: whether `os.Stat` succeeds, and what opening and
 * scanning the file gives. Line splitting by `bufio.Scanner` is taken as
 * given: an opened file is the sequence of lines the scanner delivered,
 * followed by whether `scanner.Err()` then reported a failure.
 */
module FileSystem {

  /** What `os.Open` followed by a scan to the end of the file produces. */
  datatype OpenResult =
    | NotExist                                    // os.Open fails and os.IsNotExist holds
    | OpenError                                   // os.Open fails for another reason (permission, device)
    | Opened(lines: seq<string>, scanErr: bool)   // lines delivered, then whether scanner.Err() != nil

  /** One path: `statOk` is `os.Stat(path)` returning a nil error. */
  datatype FileEntry = FileEntry(statOk: bool, open: OpenResult)

  /** A path the map does not mention is absent: Stat and Open both report not-exist. */
  type FS = map<string, FileEntry>

  const Absent := FileEntry(false, NotExist)

  function Lookup(fs: FS, path: string): FileEntry {
    if path in fs then fs[path] else Absent
  }

  /** The lines a load of this entry writes into the map: none unless the file opened. */
  function LinesRead(o: OpenResult): seq<string> {
    if o.Opened? then o.lines else []
  }

  /** Whether loading this entry reports an error: `os.Open` fails other than not-exist, or the scan fails. */
  predicate LoadFails(o: OpenResult) {
    o.OpenError? || (o.Opened? && o.scanErr)
  }
}
