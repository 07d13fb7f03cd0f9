# envdo: `.env` resolution and merge

envdo runs a command with extra environment variables read from `.env` files.
This project models the part of envdo that decides which variables those are
(`env/env.go`):

- the **file name** chosen by the profile: `.env`, or `.env.<profile>`;
- the **search directories**, highest priority first: the working directory,
  then `<configDir>/envdo`, with either left out when its root is unknown;
- the **layered merge**, `(*Env).LoadEnvFiles`. It walks the directories from
  the lowest priority to the highest and loads each file that passes `os.Stat`
  into one shared map, so that higher-priority files overwrite. The first file
  that cannot be opened or read makes the call fail with no map;
- the **line parser**, `loadEnvFile`. Each line is trimmed. Blank lines, `#`
  comments and lines without `=` are dropped. The rest is split at the first
  `=`. Key and value are trimmed separately, one matching pair of `"` or `'`
  quotes is stripped from the value, and the pair is written into the map, so
  the last line wins.

The model has these modules:

- `Text` (`text.dfy`) holds the pieces of Go's `strings` and `filepath`
  packages that the parser uses: `TrimSpace`, `HasPrefix`, the two-way split
  at the first separator, and `Join`.
- `FileSystem` (`filesystem.dfy`) is the file system as the resolver observes
  it. For each path it records whether `os.Stat` succeeds and what opening and
  scanning the file yields: not-exist, another open error, or the lines read
  plus whether the scanner reported an error.
- `EnvFile` (`envfile.dfy`) holds the line parser. The pure function
  `ApplyLines` specifies what a file does to a map. The `EnvMap` class is Go's
  shared `map[string]string`. The method `LoadEnvFile` is the scanner loop
  that writes into it in place, proved to perform `ApplyLines`.
- `Env` (`env.dfy`) holds the file name, the search directories and the merge:
  - `Merge` is the reverse-order loop stated as a function.
  - `Overlay` of the per-directory `Layers` is the declarative statement: each
    key comes from the highest-priority directory whose file defines it.
  - `YieldMerge` is the same merge taken in priority order, each layer only
    adding unset keys.
  - The class `Env` has the imperative `GetSearchDirectories` and
    `LoadEnvFiles`. Its loop mutates an `EnvMap` and is proved to compute
    `Merge`.
  - The package-level `LoadEnvFiles` takes the working directory, the value
    of `XDG_CONFIG_HOME` and the home directory as parameters.

Strings are sequences of characters. Go's quote test looks at bytes, but `"`
and `'` are single-byte characters, so testing the first and last character
gives the same answer.

Some behaviours of the code worth stating outright:

- A file is skipped whenever `os.Stat` fails for any reason, not only when it
  does not exist (env/env.go:42).
- A file whose `os.Open` then reports not-exist is also skipped
  (env/env.go:99-101).
- The load fails only when the open fails for another reason
  (env/env.go:102), or when the scanner reports an error (env/env.go:135).
  The error is kept as the path of the failing file (env/env.go:44).
- A line `=X` is not malformed: it sets the empty key (env/env.go:116-121).

## Model

| member | source | states |
|---|---|---|
| Env.EnvFileName | env/env.go:31-34 | the file name for a profile; its contract is `EnvFileNameRoundTrip` |
| Env.LoadDir | env/env.go:41-46 | one iteration of the merge loop: skip a file that fails Stat, fail on one that cannot be opened or read, otherwise write it into the map; its contract is stated through `Merge` in `MergeIsOverlay` and `MergeSkipsAbsentDirectory` |
| Env.Merge | env/env.go:39-47 | the reverse-order merge loop as a function; its contract is `MergeIsOverlay`, with `MergePrecedence`, `MergeKeys` and `MergeReportsLowestPriorityFailure` |
| Env.ConfigRoot | env/env.go:82-87 | `$XDG_CONFIG_HOME` when set, else `<home>/.config` when the home directory is known; its contract is `DefaultSearchDirectories` |
| EnvFile.ParseLine | env/env.go:108-130 | what one line contributes; its contract is `ParseLineSpec`, with the round trips `ParseLineOfJoined`, `ParseLineOfPlain` and `ParseLineOfQuoted` |
| Text.IsSpace | env/env.go:108 | the Unicode White_Space set that Go's `unicode.IsSpace` accepts; used by `TrimSpaceSpec` |
| Text.TrimSpace | env/env.go:121-122 | `strings.TrimSpace`; its contract is `TrimSpaceSpec`, with `TrimSpaceOfTrimmed` and `TrimSpaceIdempotent` |
| Text.HasPrefix | env/env.go:111 | `strings.HasPrefix`; `ParseLineSpec` restates the comment test as "the first character is `#`" |
| Text.SplitFirst | env/env.go:116-119 | `strings.SplitN(line, "=", 2)`; its contract is `SplitFirstSpec` and `SplitFirstOfJoined` |
| Env.EnvFileNameRoundTrip | env/env.go:31-34 | the file name is `.env` for the empty profile and `.env.<profile>` otherwise; decoding the name gives the profile back, and only that profile's name decodes to it, so distinct profiles never share a file name |
| Env.SearchDirectories | env/env.go:54-69 | at most two directories: the working directory first when known, `<configDir>/envdo` last when the config root is known, nothing else, and no empty entry |
| Env.Env.GetSearchDirectories | env/env.go:54-69 | building the list by appending the known roots in priority order yields exactly `SearchDirectories` |
| Env.Env.constructor | env/env.go:18-23 | `New` keeps the working directory and config root it is given |
| Env.Env.LoadEnvFiles | env/env.go:27-50 | the reverse-index loop over the shared map returns `Merge` of the search directories for the profile's file name: the merged map, or the error naming the failing file |
| Env.MergeFailurePropagates | env/env.go:43-45 | once a failure occurs while the loop is loading the lower-priority directories, the whole call returns that failure and no map |
| Env.MergeIsOverlay | env/env.go:39-49 | the merge fails exactly when some directory's file passes Stat and then cannot be opened or read; otherwise its map is the overlay of the directories' own pairs, higher priority on top |
| Env.MergeReportsLowestPriorityFailure | env/env.go:40-45 | when several files fail, the error names the lowest-priority one, the first the loop meets |
| Env.MergePrecedence | env/env.go:39-47 | in a successful merge a key takes the value of the highest-priority directory whose file defines it |
| Env.MergeKeys | env/env.go:39-47 | the keys of a successful merge are exactly the union of the keys the directories' files define |
| Env.OverlayIsYieldMerge | env/env.go:39-47 | overwriting from the lowest priority up equals taking each key from the first layer, in priority order, that has it |
| Env.OverlaySnoc | env/env.go:39-47 | adding a layer of lowest priority only fills in keys the other layers leave unset |
| Env.OverlayKeys | env/env.go:39-47 | a key is in the overlay exactly when some layer has it |
| Env.OverlayPrecedence | env/env.go:39-47 | the overlay takes each key from the first layer that has it |
| Env.MergeOfAbsentFiles | env/env_test.go:70-75 | with no file in any directory the merge succeeds with the empty map |
| Env.MergeSkipsAbsentDirectory | env/env.go:42 | a directory whose file fails Stat changes nothing: the merge without it is the same, error or map |
| Env.PwdOverridesConfig | env/env_test.go:44-58 | with both directories readable: the working directory's value wins for keys both files define, keys only the config file defines are kept, and the key set is the union of both files' keys |
| Env.DefaultSearchDirectories | env/env.go:76-87 | the working directory comes first when known; the config directory is `$XDG_CONFIG_HOME/envdo` when that is set, else `<home>/.config/envdo` when the home directory is known, else it is absent |
| Env.LoadEnvFiles | env/env.go:74-92 | the package-level call is the `Env` merge built from the working directory (empty when unknown) and that config root |
| EnvFile.LoadEnvFile | env/env.go:95-136 | succeeds exactly unless the open fails other than not-exist or the scan fails; the shared map ends as the old map with every line read applied in order, and a missing file leaves it unchanged |
| EnvFile.ApplyLine | env/env.go:108-132 | one pass of the scanner loop leaves the map as `ApplyLines` of that one line |
| EnvFile.EnvMap.constructor | env/env.go:28 | the merge starts from an empty map |
| EnvFile.ApplyOneLine | env/env.go:108-132 | a line that parses sets its key to its value, overwriting; any other line leaves the map unchanged |
| EnvFile.ParseLineSpec | env/env.go:108-130 | a line adds nothing exactly when, after trimming, it is empty, starts with `#` or has no `=`; otherwise it is split at the first `=` into the trimmed key and the trimmed, quote-stripped value |
| EnvFile.ParseLineOfJoined | env/env.go:116-130 | `KEY=rest` gives back the key and the quote-stripped rest, for any `rest` without white space at its ends, including one that holds further `=` |
| EnvFile.ParseLineOfPlain | env/env.go:116-122 | `KEY=value` gives back its key and value when the value needs no quoting |
| EnvFile.ParseLineOfQuoted | env/env_test.go:77-91 | `KEY="value"` and `KEY='value'` give back the text between the quotes, inner spaces included |
| EnvFile.EmptyKeyAccepted | env/env_test.go:116-124 | `=X` is accepted and sets the empty key to `X` |
| EnvFile.StripQuotes | env/env.go:124-130 | a value of length at least 2 with the same quote (`"` or `'`) at both ends loses exactly those two characters; any other value, including mismatched quotes and a lone quote, is unchanged |
| EnvFile.StripQuotesOfWrapped | env/env.go:124-130 | wrapping any text in one pair of quotes and stripping gives the text back |
| EnvFile.ParseLinesAppend | env/env.go:107-108 | each line is parsed on its own: parsing a concatenation of lines is parsing each part and concatenating the results |
| EnvFile.ApplyLinesIsOverlay | env/env.go:107-133 | writing a file into a map overlays the file's own pairs: keys the file defines take the file's value, all other keys keep theirs |
| EnvFile.AssignIsOverlay | env/env.go:132 | performing a run of assignments on a map overlays what they produce on their own |
| EnvFile.ParseFileKeys | env/env.go:107-133 | a file's map holds exactly the keys of its lines that parse |
| EnvFile.AssignKeys | env/env.go:132 | after a run of assignments, the keys are the old keys plus the keys assigned |
| EnvFile.LastLineWins | env/env.go:132 | within one file the last line that sets a key decides its value |
| EnvFile.LastAssignmentWins | env/env.go:132 | in a run of assignments the last one to a key decides its value |
| EnvFile.SkippedLineIsInert | env/env.go:110-119 | a blank line, a comment or a line without `=` can be removed from a file without changing its effect |
| EnvFile.SkippedAssignmentIsInert | env/env.go:111-119 | a line that yields no assignment can be removed from a run without changing its effect |
| EnvFile.ApplyLinesAppend | env/env.go:107-133 | writing two files one after the other equals writing their concatenation |
| EnvFile.AssignAppend | env/env.go:132 | running two runs of assignments one after the other equals running their concatenation |
| EnvFile.ApplyLinesTwice | env/env.go:107-133 | writing the same file twice has the effect of writing it once |
| Text.TrimSpaceSpec | env/env.go:108 | trimming leaves the slice left after cutting the leading and trailing white space: everything cut is white space and the result neither starts nor ends with white space |
| Text.TrimSpaceOfTrimmed | env/env.go:121-122 | a string without white space at its ends is left unchanged by trimming |
| Text.TrimSpaceIdempotent | env/env.go:121-122 | trimming twice equals trimming once, so trimming the key and value again after the line trim is harmless |
| Text.SplitFirstSpec | env/env.go:116-119 | splitting into at most two parts yields one part exactly when `=` does not occur; otherwise the head has no `=` and head, `=` and tail rejoin to the line |
| Text.SplitFirstOfJoined | env/env.go:116 | splitting `head=tail` with `=`-free head gives back head and tail, with any later `=` left in the tail |

## Left out

- `cmd/root.go` is not part of this model: flag parsing, printing `export` lines, building the child environment, running the command and forwarding its exit code are process plumbing.
- `os.Getwd`, `os.Getenv("XDG_CONFIG_HOME")` and `os.UserHomeDir` are parameters of the package-level `LoadEnvFiles`. A failing `os.Getwd` is `None` and becomes the empty working directory. A failing `os.UserHomeDir` is `None`.
- The file system is a map from path to observations. The gap between `os.Stat` and `os.Open` is represented only by letting the two observations of a path disagree. `defer file.Close()` is not modelled.
- `bufio.Scanner` line splitting is taken as given: an opened file is the sequence of lines it delivers. Its `\r\n` handling and its maximum token size show up only as the scan-error flag.
- Text.Join: `filepath.Join` is `dir + "/" + name`, without the path cleaning Go performs (duplicate or trailing separators, `.` and `..`). Because of that cleaning, distinct profiles can resolve to the same file in Go (profiles `a` and `a/` both open `<dir>/.env.a`; profile `/../.env` opens `<dir>/.env`); the model only proves that distinct profiles get distinct file names.
- Env.LoadEnvFiles: the error is kept as the path of the failing file only; the wrapped message text and the underlying OS error are not modelled.
- Text.IsSpace: invalid UTF-8 is not modelled; strings are sequences of characters.
- Go's random map iteration order is irrelevant here, since nothing in the core iterates over a map.
