/**
 * The resolver of env/env.go: the file name chosen by the profile, the
 * priority-ordered search directories, and the layered merge that loads the
 * lowest-priority directory first so that higher-priority files overwrite.
 */
module Env {
  import opened Wrappers
  import opened Text
  import opened FileSystem
  import opened EnvFile

  // ---------------------------------------------------------------------------
  // File name and search directories

  /** The file looked up in every directory: `.env`, or `.env.<profile>` with the profile verbatim. */
  function EnvFileName(profile: string): string {
    if profile == "" then ".env" else ".env." + profile
  }

  /** Recovers the profile from a file name, when the name is one EnvFileName can produce. */
  function ProfileOf(name: string): Option<string> {
    if name == ".env" then Some("")
    else if |name| > 5 && name[..5] == ".env." then Some(name[5..])
    else None
  }

  /**
   * EnvFileName and ProfileOf are inverse: every profile, empty or not, has
   * its own file name, so two profiles never share a file name.
   */
  lemma EnvFileNameRoundTrip(profile: string, name: string)
    ensures ProfileOf(EnvFileName(profile)) == Some(profile)
    ensures ProfileOf(name) == Some(profile) ==> EnvFileName(profile) == name
  {
    if profile != "" {
      var n := EnvFileName(profile);
      assert n[..5] == ".env." && n[5..] == profile;
    }
    if ProfileOf(name) == Some(profile) && name != ".env" {
      assert name == name[..5] + name[5..];
    }
  }

  /**
   * The directories searched, highest priority first: the working directory
   * when it is known, then `<configDir>/envdo` when the config root is known.
   */
  function SearchDirectories(pwd: string, configDir: string): (dirs: seq<string>)
    ensures |dirs| == (if pwd == "" then 0 else 1) + (if configDir == "" then 0 else 1)
    ensures pwd != "" ==> dirs[0] == pwd
    ensures configDir != "" ==> dirs[|dirs| - 1] == Join(configDir, "envdo")
    ensures forall d :: d in dirs ==> d != ""
  {
    (if pwd == "" then [] else [pwd]) + (if configDir == "" then [] else [Join(configDir, "envdo")])
  }

  // ---------------------------------------------------------------------------
  // The merge, as the loop of LoadEnvFiles performs it

  /** The error `LoadEnvFiles` returns: it names the file that could not be loaded. */
  datatype LoadError = LoadError(path: string)

  /**
   * One iteration of the merge loop: a file whose Stat fails is skipped;
   * otherwise the file is loaded into `m`, or the whole load fails.
   */
  function LoadDir(fs: FS, dir: string, filename: string, m: map<string, string>): Result<map<string, string>, LoadError> {
    var path := Join(dir, filename);
    var e := Lookup(fs, path);
    if !e.statOk then Ok(m)
    else if LoadFails(e.open) then Err(LoadError(path))
    else Ok(ApplyLines(m, LinesRead(e.open)))
  }

  /**
   * The merge of the files of `dirs`: the directories are loaded from the
   * last (lowest priority) to the first, into one map; the first failure
   * met in that order ends the merge.
   */
  function Merge(fs: FS, dirs: seq<string>, filename: string): Result<map<string, string>, LoadError>
    decreases |dirs|
  {
    if dirs == [] then Ok(map[])
    else match Merge(fs, dirs[1..], filename)
      case Err(e) => Err(e)
      case Ok(m) => LoadDir(fs, dirs[0], filename, m)
  }

  /** A failure while merging a suffix of the directories is the failure of the whole merge. */
  lemma {:induction false} MergeFailurePropagates(fs: FS, dirs: seq<string>, filename: string, i: nat)
    requires i < |dirs| && Merge(fs, dirs[i..], filename).Err?
    ensures Merge(fs, dirs, filename) == Merge(fs, dirs[i..], filename)
  {
    if i > 0 {
      assert dirs[1..][i - 1..] == dirs[i..];
      MergeFailurePropagates(fs, dirs[1..], filename, i - 1);
    }
  }

  // ---------------------------------------------------------------------------
  // The declarative statement of the merge

  /** What the file of `dir` contributes when it loads: its own pairs; nothing when Stat fails or it does not exist. */
  function DirPairs(fs: FS, dir: string, filename: string): map<string, string> {
    var e := Lookup(fs, Join(dir, filename));
    if e.statOk then ParseFile(LinesRead(e.open)) else map[]
  }

  /** The file of `dir` passes Stat but cannot be opened or read to the end. */
  predicate DirFails(fs: FS, dir: string, filename: string) {
    var e := Lookup(fs, Join(dir, filename));
    e.statOk && LoadFails(e.open)
  }

  /** The pairs of every directory, in priority order. */
  function Layers(fs: FS, dirs: seq<string>, filename: string): (layers: seq<map<string, string>>)
    ensures |layers| == |dirs|
    ensures forall i :: 0 <= i < |dirs| ==> layers[i] == DirPairs(fs, dirs[i], filename)
  {
    seq(|dirs|, i requires 0 <= i < |dirs| => DirPairs(fs, dirs[i], filename))
  }

  /** Layers laid on top of each other: an earlier (higher-priority) layer overwrites every later one. */
  function Overlay(layers: seq<map<string, string>>): map<string, string>
    decreases |layers|
  {
    if layers == [] then map[] else Overlay(layers[1..]) + layers[0]
  }

  /**
   * The other way to merge layers: take them in priority order, and let each
   * later layer add only the keys that are not set yet.
   */
  function YieldMerge(layers: seq<map<string, string>>): map<string, string>
    decreases |layers|
  {
    if layers == [] then map[]
    else
      var acc := YieldMerge(layers[..|layers| - 1]);
      var next := layers[|layers| - 1];
      map k | k in acc.Keys + next.Keys :: if k in acc then acc[k] else next[k]
  }

  /** Overwriting from the lowest priority up gives the same map as yielding from the highest priority down. */
  lemma {:induction false} OverlayIsYieldMerge(layers: seq<map<string, string>>)
    ensures Overlay(layers) == YieldMerge(layers)
    decreases |layers|
  {
    if layers != [] {
      var n := |layers| - 1;
      var init := layers[..n];
      OverlayIsYieldMerge(init);
      OverlaySnoc(init, layers[n]);
      assert init + [layers[n]] == layers;
    }
  }

  /** Adding a layer of lowest priority: it only fills in the keys the others leave unset. */
  lemma {:induction false} OverlaySnoc(layers: seq<map<string, string>>, last: map<string, string>)
    ensures Overlay(layers + [last]) == last + Overlay(layers)
    decreases |layers|
  {
    if layers == [] {
      assert [last][1..] == [];
    } else {
      assert (layers + [last])[1..] == layers[1..] + [last];
      OverlaySnoc(layers[1..], last);
      assert (last + Overlay(layers[1..])) + layers[0] == last + (Overlay(layers[1..]) + layers[0]);
    }
  }

  /** A key is in the overlay exactly when some layer has it. */
  lemma {:induction false} OverlayKeys(layers: seq<map<string, string>>, k: string)
    ensures k in Overlay(layers) <==> exists i :: 0 <= i < |layers| && k in layers[i]
    decreases |layers|
  {
    if layers != [] {
      OverlayKeys(layers[1..], k);
      if exists i :: 1 <= i < |layers| && k in layers[i] {
        var i :| 1 <= i < |layers| && k in layers[i];
        assert k in layers[1..][i - 1];
      }
      if exists i :: 0 <= i < |layers[1..]| && k in layers[1..][i] {
        var i :| 0 <= i < |layers[1..]| && k in layers[1..][i];
        assert k in layers[i + 1];
      }
    }
  }

  /** The overlay takes each key from the first (highest-priority) layer that has it. */
  lemma {:induction false} OverlayPrecedence(layers: seq<map<string, string>>, k: string, i: nat)
    requires i < |layers| && k in layers[i]
    requires forall j :: 0 <= j < i ==> k !in layers[j]
    ensures k in Overlay(layers) && Overlay(layers)[k] == layers[i][k]
    decreases |layers|
  {
    if i > 0 {
      assert forall j :: 0 <= j < i - 1 ==> layers[1..][j] == layers[j + 1];
      OverlayPrecedence(layers[1..], k, i - 1);
    }
  }

  /**
   * The merge fails exactly when some directory's file passes Stat and then
   * cannot be read; otherwise it is the overlay of the directories' own pairs.
   */
  lemma {:induction false} MergeIsOverlay(fs: FS, dirs: seq<string>, filename: string)
    ensures Merge(fs, dirs, filename).Err? <==> exists i :: 0 <= i < |dirs| && DirFails(fs, dirs[i], filename)
    ensures Merge(fs, dirs, filename).Ok? ==> Merge(fs, dirs, filename).value == Overlay(Layers(fs, dirs, filename))
    decreases |dirs|
  {
    if dirs != [] {
      var rest := dirs[1..];
      MergeIsOverlay(fs, rest, filename);
      assert Layers(fs, dirs, filename)[1..] == Layers(fs, rest, filename);
      if exists i :: 0 <= i < |rest| && DirFails(fs, rest[i], filename) {
        var i :| 0 <= i < |rest| && DirFails(fs, rest[i], filename);
        assert DirFails(fs, dirs[i + 1], filename);
      }
      if exists i :: 1 <= i < |dirs| && DirFails(fs, dirs[i], filename) {
        var i :| 1 <= i < |dirs| && DirFails(fs, dirs[i], filename);
        assert DirFails(fs, rest[i - 1], filename);
      }
      match Merge(fs, rest, filename)
      case Err(_) =>
      case Ok(m) =>
        var e := Lookup(fs, Join(dirs[0], filename));
        if e.statOk && !LoadFails(e.open) {
          ApplyLinesIsOverlay(m, LinesRead(e.open));
        }
    }
  }

  /** The failure reported names the file of the lowest-priority directory that fails, the first one the loop meets. */
  lemma {:induction false} MergeReportsLowestPriorityFailure(fs: FS, dirs: seq<string>, filename: string, i: nat)
    requires i < |dirs| && DirFails(fs, dirs[i], filename)
    requires forall j :: i < j < |dirs| ==> !DirFails(fs, dirs[j], filename)
    ensures Merge(fs, dirs, filename) == Err(LoadError(Join(dirs[i], filename)))
  {
    var tail := dirs[i + 1..];
    assert forall j :: 0 <= j < |tail| ==> tail[j] == dirs[i + 1 + j];
    MergeIsOverlay(fs, tail, filename);
    assert dirs[i..][1..] == tail;
    MergeFailurePropagates(fs, dirs, filename, i);
  }

  /**
   * "Key from the highest-priority directory whose file defines it": when the
   * merge succeeds, a key is present exactly when some directory's file
   * defines it, and its value is the one the first such file gives it.
   */
  lemma MergePrecedence(fs: FS, dirs: seq<string>, filename: string, k: string, i: nat)
    requires Merge(fs, dirs, filename).Ok?
    requires i < |dirs| && k in DirPairs(fs, dirs[i], filename)
    requires forall j :: 0 <= j < i ==> k !in DirPairs(fs, dirs[j], filename)
    ensures k in Merge(fs, dirs, filename).value
    ensures Merge(fs, dirs, filename).value[k] == DirPairs(fs, dirs[i], filename)[k]
  {
    MergeIsOverlay(fs, dirs, filename);
    OverlayPrecedence(Layers(fs, dirs, filename), k, i);
  }

  /** A successful merge holds no key that no directory's file defines. */
  lemma MergeKeys(fs: FS, dirs: seq<string>, filename: string, k: string)
    requires Merge(fs, dirs, filename).Ok?
    ensures k in Merge(fs, dirs, filename).value <==> exists i :: 0 <= i < |dirs| && k in DirPairs(fs, dirs[i], filename)
  {
    MergeIsOverlay(fs, dirs, filename);
    OverlayKeys(Layers(fs, dirs, filename), k);
  }

  /** With no file present in any directory the merge succeeds with the empty map. */
  lemma {:induction false} MergeOfAbsentFiles(fs: FS, dirs: seq<string>, filename: string)
    requires forall i :: 0 <= i < |dirs| ==> !Lookup(fs, Join(dirs[i], filename)).statOk
    ensures Merge(fs, dirs, filename) == Ok(map[])
  {
    if dirs != [] {
      assert forall i :: 0 <= i < |dirs[1..]| ==> dirs[1..][i] == dirs[i + 1];
      MergeOfAbsentFiles(fs, dirs[1..], filename);
    }
  }

  /** A directory whose file fails Stat contributes nothing: the merge is the same without it. */
  lemma {:induction false} MergeSkipsAbsentDirectory(fs: FS, dirs: seq<string>, filename: string, i: nat)
    requires i < |dirs| && !Lookup(fs, Join(dirs[i], filename)).statOk
    ensures Merge(fs, dirs[..i] + dirs[i + 1..], filename) == Merge(fs, dirs, filename)
  {
    var without := dirs[..i] + dirs[i + 1..];
    if i == 0 {
      assert without == dirs[1..];
    } else {
      var rest := dirs[1..];
      MergeSkipsAbsentDirectory(fs, rest, filename, i - 1);
      assert without[0] == dirs[0];
      assert without[1..] == rest[..i - 1] + rest[i..];
    }
  }

  /**
   * The two search directories together: the file of the working directory
   * wins every key both files define, keys only the config file defines are
   * kept, and the result has the keys of both files and no others.
   */
  lemma PwdOverridesConfig(fs: FS, pwd: string, configDir: string, profile: string)
    requires pwd != "" && configDir != ""
    requires !DirFails(fs, pwd, EnvFileName(profile))
    requires !DirFails(fs, Join(configDir, "envdo"), EnvFileName(profile))
    ensures var name := EnvFileName(profile);
      var p := DirPairs(fs, pwd, name);
      var c := DirPairs(fs, Join(configDir, "envdo"), name);
      var r := Merge(fs, SearchDirectories(pwd, configDir), name);
      && r.Ok?
      && r.value.Keys == p.Keys + c.Keys
      && (forall k :: k in p ==> r.value[k] == p[k])
      && (forall k :: k in c && k !in p ==> r.value[k] == c[k])
  {
    var name := EnvFileName(profile);
    var dirs := SearchDirectories(pwd, configDir);
    MergeIsOverlay(fs, dirs, name);
    var layers := Layers(fs, dirs, name);
    assert |layers| == 2;
    assert Overlay(layers[1..][1..]) == map[];
    assert Overlay(layers[1..]) == map[] + layers[1];
    assert Overlay(layers) == Overlay(layers[1..]) + layers[0];
  }

  // ---------------------------------------------------------------------------
  // The resolver object

  /** `Env`: the two roots the search directories are built from, fixed at construction. */
  class Env {
    const pwd: string
    const configDir: string

    /** `New`. */
    constructor (pwd: string, configDir: string)
      ensures this.pwd == pwd && this.configDir == configDir
    {
      this.pwd := pwd;
      this.configDir := configDir;
    }

    /** `getSearchDirectories`: builds the list by appending each known root in priority order. */
    method GetSearchDirectories() returns (dirs: seq<string>)
      ensures dirs == SearchDirectories(pwd, configDir)
    {
      dirs := [];
      if pwd != "" {
        dirs := dirs + [pwd];
      }
      if configDir != "" {
        var envdoConfigDir := Join(configDir, "envdo");
        dirs := dirs + [envdoConfigDir];
      }
    }

    /**
     * `LoadEnvFiles`: walks the search directories from the lowest priority
     * to the highest, loading each existing file into one map; the first
     * file that cannot be loaded makes the whole call fail with no map.
     */
    method LoadEnvFiles(fs: FS, profile: string) returns (r: Result<map<string, string>, LoadError>)
      ensures r == Merge(fs, SearchDirectories(pwd, configDir), EnvFileName(profile))
    {
      var envs := new EnvMap();

      var filename := ".env";
      if profile != "" {
        filename := ".env." + profile;
      }

      var dirs := GetSearchDirectories();

      var i := |dirs| - 1;
      while i >= 0
        invariant -1 <= i < |dirs|
        invariant fresh(envs)
        invariant Merge(fs, dirs[i + 1..], filename) == Ok(envs.vars)
      {
        var envPath := Join(dirs[i], filename);
        assert dirs[i..][1..] == dirs[i + 1..];
        if Lookup(fs, envPath).statOk {
          var ok := LoadEnvFile(fs, envPath, envs);
          if !ok {
            MergeFailurePropagates(fs, dirs, filename, i);
            return Err(LoadError(envPath));
          }
        }
        i := i - 1;
      }
      assert dirs[0..] == dirs;
      return Ok(envs.vars);
    }
  }

  // ---------------------------------------------------------------------------
  // The package-level entry point

  /**
   * The config root: `$XDG_CONFIG_HOME` when set and non-empty, else
   * `<home>/.config` when the home directory is known, else none ("").
   */
  function ConfigRoot(xdgConfigHome: string, homeDir: Option<string>): string {
    if xdgConfigHome != "" then xdgConfigHome
    else if homeDir.Some? then Join(homeDir.value, ".config")
    else ""
  }

  /** The directories the package-level LoadEnvFiles searches, for each way the roots can be known. */
  lemma DefaultSearchDirectories(cwd: Option<string>, xdgConfigHome: string, homeDir: Option<string>)
    ensures var pwd := if cwd.Some? then cwd.value else "";
      var dirs := SearchDirectories(pwd, ConfigRoot(xdgConfigHome, homeDir));
      && (pwd != "" ==> dirs[0] == pwd)
      && (xdgConfigHome != "" ==> dirs[|dirs| - 1] == xdgConfigHome + "/envdo")
      && (xdgConfigHome == "" && homeDir.Some? ==> dirs[|dirs| - 1] == homeDir.value + "/.config/envdo")
      && (xdgConfigHome == "" && homeDir.None? ==> dirs == (if pwd == "" then [] else [pwd]))
  {
  }

  /**
   * The package-level `LoadEnvFiles`: the working directory (`cwd`, None
   * when `os.Getwd` fails), `$XDG_CONFIG_HOME` and the home directory (None
   * when `os.UserHomeDir` fails) are given as parameters.
   */
  method LoadEnvFiles(fs: FS, profile: string, cwd: Option<string>, xdgConfigHome: string, homeDir: Option<string>)
    returns (r: Result<map<string, string>, LoadError>)
    ensures r == Merge(fs, SearchDirectories(if cwd.Some? then cwd.value else "", ConfigRoot(xdgConfigHome, homeDir)), EnvFileName(profile))
  {
    var pwd := "";
    if cwd.Some? {
      pwd := cwd.value;
    }
    var configDir := xdgConfigHome;
    if configDir == "" {
      if homeDir.Some? {
        configDir := Join(homeDir.value, ".config");
      }
    }
    var env := new Env(pwd, configDir);
    r := env.LoadEnvFiles(fs, profile);
  }
}
