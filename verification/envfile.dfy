/**
 * The line parser of `loadEnvFile` (env/env.go): each line is trimmed, blank
 * lines and `#` comments are dropped, the rest is split at the first `=`,
 * key and value are trimmed separately and one matching pair of quotes is
 * stripped from the value. The parsed pairs are written, in file order, into
 * a map that the caller owns.
 */
module EnvFile {
  import opened Wrappers
  import opened Text
  import opened FileSystem

  /** One accepted line: the key and the value written into the map. */
  datatype Assignment = Assignment(key: string, value: string)

  predicate IsQuoteChar(q: char) {
    q == '"' || q == '\''
  }

  /** At least two characters, and both ends are `"` or both ends are `'`. */
  predicate IsQuoted(v: string) {
    |v| >= 2 && IsQuoteChar(v[0]) && v[|v| - 1] == v[0]
  }

  /**
   * Removes exactly one quote character at each end of a quoted value;
   * any other value (mismatched quotes, a lone quote) is returned unchanged.
   */
  function StripQuotes(v: string): (r: string)
    ensures IsQuoted(v) ==> |r| == |v| - 2 && v == [v[0]] + r + [v[0]]
    ensures !IsQuoted(v) ==> r == v
  {
    if |v| >= 2 && ((v[0] == '"' && v[|v| - 1] == '"') || (v[0] == '\'' && v[|v| - 1] == '\'')) then
      assert v == [v[0]] + v[1..|v| - 1] + [v[|v| - 1]];
      v[1..|v| - 1]
    else
      v
  }

  /** Wrapping any text in one pair of quotes and stripping them gives the text back. */
  lemma StripQuotesOfWrapped(q: char, text: string)
    requires IsQuoteChar(q)
    ensures StripQuotes([q] + text + [q]) == text
  {
    var v := [q] + text + [q];
    assert v[1..|v| - 1] == text;
  }

  /**
   * What one line of a `.env` file contributes: None for a line that is
   * blank or a comment after trimming, or that holds no `=`; otherwise the
   * trimmed text before the first `=` (possibly empty) as key and the
   * trimmed, quote-stripped text after it as value.
   */
  function ParseLine(raw: string): Option<Assignment> {
    var line := TrimSpace(raw);
    if line == [] || HasPrefix(line, "#") then
      None
    else match SplitFirst(line, '=')
      case None => None
      case Some((before, after)) => Some(Assignment(TrimSpace(before), StripQuotes(TrimSpace(after))))
  }

  /**
   * ParseLine drops exactly the lines that are blank or a comment after
   * trimming or hold no `=`; any other line is split at its first `=`.
   */
  lemma ParseLineSpec(raw: string)
    ensures ParseLine(raw).None? <==> (var line := TrimSpace(raw); line == [] || line[0] == '#' || '=' !in line)
    ensures ParseLine(raw).Some? ==>
      var line := TrimSpace(raw);
      exists i :: 0 <= i < |line| && line[i] == '=' && '=' !in line[..i]
        && ParseLine(raw).value == Assignment(TrimSpace(line[..i]), StripQuotes(TrimSpace(line[i + 1..])))
  {
    var line := TrimSpace(raw);
    SplitFirstSpec(line, '=');
    if line != [] && line[0] != '#' {
      assert !HasPrefix(line, "#");
      match SplitFirst(line, '=')
      case None =>
      case Some((before, after)) =>
        var i := |before|;
        assert line[i] == '=' && line[..i] == before && line[i + 1..] == after;
    }
  }

  /** A key the file format can write back: no `=`, no white space at its ends, not read as a comment. */
  predicate WritableKey(key: string) {
    '=' !in key && Trimmed(key) && (key == [] || key[0] != '#')
  }

  /** `KEY=rest` parses to the key and the quote-stripped rest when neither has white space at its ends. */
  lemma ParseLineOfJoined(key: string, rest: string)
    requires WritableKey(key) && Trimmed(rest)
    ensures ParseLine(key + "=" + rest) == Some(Assignment(key, StripQuotes(rest)))
  {
    var line := key + "=" + rest;
    assert line[0] == (if key == [] then '=' else key[0]);
    assert line[|line| - 1] == (if rest == [] then '=' else rest[|rest| - 1]);
    TrimSpaceOfTrimmed(line);
    assert !HasPrefix(line, "#");
    SplitFirstOfJoined(key, '=', rest);
    TrimSpaceOfTrimmed(key);
    TrimSpaceOfTrimmed(rest);
  }

  /** `KEY=value` parses back to its key and value when the value needs no quoting. */
  lemma ParseLineOfPlain(key: string, value: string)
    requires WritableKey(key) && Trimmed(value) && !IsQuoted(value)
    ensures ParseLine(key + "=" + value) == Some(Assignment(key, value))
  {
    ParseLineOfJoined(key, value);
  }

  /**
   * `KEY="value"` and `KEY='value'` parse back to the value between the
   * quotes, whatever it holds: inner spaces, `=`, quotes.
   */
  lemma ParseLineOfQuoted(key: string, q: char, value: string)
    requires WritableKey(key) && IsQuoteChar(q)
    ensures ParseLine(key + "=" + ([q] + value + [q])) == Some(Assignment(key, value))
  {
    var quoted := [q] + value + [q];
    assert quoted[0] == q && quoted[|quoted| - 1] == q;
    ParseLineOfJoined(key, quoted);
    StripQuotesOfWrapped(q, value);
  }

  /**
   * A line `=value` is accepted: splitting at the first `=` gives the empty
   * key, and only a line without `=` is dropped as malformed.
   */
  lemma EmptyKeyAccepted(value: string)
    requires Trimmed(value) && !IsQuoted(value)
    ensures ParseLine("=" + value) == Some(Assignment("", value))
  {
    ParseLineOfPlain("", value);
  }

  /** The assignment of each line, in file order. */
  function ParseLines(lines: seq<string>): (r: seq<Option<Assignment>>)
    ensures |r| == |lines|
    ensures forall i :: 0 <= i < |lines| ==> r[i] == ParseLine(lines[i])
  {
    seq(|lines|, i requires 0 <= i < |lines| => ParseLine(lines[i]))
  }

  /** The map after performing the assignments, in order, on `m`: each one sets its key, overwriting. */
  function Assign(m: map<string, string>, asgs: seq<Option<Assignment>>): map<string, string>
    decreases |asgs|
  {
    if asgs == [] then m
    else
      var m' := Assign(m, asgs[..|asgs| - 1]);
      match asgs[|asgs| - 1]
      case None => m'
      case Some(a) => m'[a.key := a.value]
  }

  /** The map after writing the lines of a file, in order, into `m`. */
  function ApplyLines(m: map<string, string>, lines: seq<string>): map<string, string> {
    Assign(m, ParseLines(lines))
  }

  /** Writing a single line: a line that parses sets its key, any other line changes nothing. */
  lemma ApplyOneLine(m: map<string, string>, raw: string)
    ensures ApplyLines(m, [raw]) ==
      match ParseLine(raw)
      case None => m
      case Some(a) => m[a.key := a.value]
  {
    var ps := ParseLines([raw]);
    assert ps[0] == ParseLine(raw);
    assert ps[..0] == [];
    assert Assign(m, []) == m;
  }

  /** The pairs one file defines on its own. */
  function ParseFile(lines: seq<string>): map<string, string> {
    ApplyLines(map[], lines)
  }

  /** The keys of the lines that parse. */
  function DefinedKeys(lines: seq<string>): set<string> {
    set i | 0 <= i < |lines| && ParseLine(lines[i]).Some? :: ParseLine(lines[i]).value.key
  }

  predicate LineDefines(raw: string, key: string) {
    ParseLine(raw).Some? && ParseLine(raw).value.key == key
  }

  predicate Sets(a: Option<Assignment>, key: string) {
    a.Some? && a.value.key == key
  }

  /** Performing assignments on a map is overlaying what they produce on their own. */
  lemma {:induction false} AssignIsOverlay(m: map<string, string>, asgs: seq<Option<Assignment>>)
    ensures Assign(m, asgs) == m + Assign(map[], asgs)
    decreases |asgs|
  {
    if asgs != [] {
      var init := asgs[..|asgs| - 1];
      AssignIsOverlay(m, init);
      match asgs[|asgs| - 1]
      case None =>
      case Some(a) =>
        assert (m + Assign(map[], init))[a.key := a.value] == m + Assign(map[], init)[a.key := a.value];
    }
  }

  /**
   * Writing a file into a map is overlaying the file's own pairs on it: keys
   * the file defines take the file's value, every other key keeps its value.
   */
  lemma ApplyLinesIsOverlay(m: map<string, string>, lines: seq<string>)
    ensures ApplyLines(m, lines) == m + ParseFile(lines)
  {
    AssignIsOverlay(m, ParseLines(lines));
  }

  lemma {:induction false} AssignKeys(m: map<string, string>, asgs: seq<Option<Assignment>>)
    ensures Assign(m, asgs).Keys == m.Keys + set i | 0 <= i < |asgs| && asgs[i].Some? :: asgs[i].value.key
    decreases |asgs|
  {
    if asgs != [] {
      var n := |asgs| - 1;
      AssignKeys(m, asgs[..n]);
      assert forall i :: 0 <= i < n ==> asgs[..n][i] == asgs[i];
      assert (set i | 0 <= i < |asgs| && asgs[i].Some? :: asgs[i].value.key)
          == (set i | 0 <= i < n && asgs[..n][i].Some? :: asgs[..n][i].value.key)
             + (if asgs[n].Some? then {asgs[n].value.key} else {});
    }
  }

  /** A file's map has exactly the keys of its parsed lines. */
  lemma ParseFileKeys(lines: seq<string>)
    ensures ParseFile(lines).Keys == DefinedKeys(lines)
  {
    var asgs := ParseLines(lines);
    AssignKeys(map[], asgs);
    assert (set i | 0 <= i < |asgs| && asgs[i].Some? :: asgs[i].value.key) == DefinedKeys(lines);
  }

  lemma {:induction false} LastAssignmentWins(m: map<string, string>, asgs: seq<Option<Assignment>>, key: string, i: nat)
    requires i < |asgs| && Sets(asgs[i], key)
    requires forall j :: i < j < |asgs| ==> !Sets(asgs[j], key)
    ensures key in Assign(m, asgs) && Assign(m, asgs)[key] == asgs[i].value.value
    decreases |asgs|
  {
    var n := |asgs| - 1;
    if i < n {
      assert forall j :: i < j < n ==> asgs[..n][j] == asgs[j];
      LastAssignmentWins(m, asgs[..n], key, i);
    }
  }

  /** Within one file the last line that sets a key decides its value. */
  lemma LastLineWins(lines: seq<string>, key: string, i: nat)
    requires i < |lines| && LineDefines(lines[i], key)
    requires forall j :: i < j < |lines| ==> !LineDefines(lines[j], key)
    ensures key in ParseFile(lines) && ParseFile(lines)[key] == ParseLine(lines[i]).value.value
  {
    LastAssignmentWins(map[], ParseLines(lines), key, i);
  }

  lemma {:induction false} SkippedAssignmentIsInert(m: map<string, string>, before: seq<Option<Assignment>>, after: seq<Option<Assignment>>)
    ensures Assign(m, before + [None] + after) == Assign(m, before + after)
    decreases |after|
  {
    if after == [] {
      assert before + [None] + after == before + [None];
      assert (before + [None])[..|before|] == before;
      assert before + after == before;
    } else {
      var n := |after| - 1;
      SkippedAssignmentIsInert(m, before, after[..n]);
      assert (before + [None] + after)[..|before| + 1 + n] == before + [None] + after[..n];
      assert (before + after)[..|before| + n] == before + after[..n];
    }
  }

  /** Parsing a concatenation of files parses each of them. */
  lemma ParseLinesAppend(a: seq<string>, b: seq<string>)
    ensures ParseLines(a + b) == ParseLines(a) + ParseLines(b)
  {
    var l, r := ParseLines(a + b), ParseLines(a) + ParseLines(b);
    forall i | 0 <= i < |a| + |b| ensures l[i] == r[i] {
      if i < |a| {
        assert (a + b)[i] == a[i];
      } else {
        assert (a + b)[i] == b[i - |a|];
      }
    }
  }

  lemma {:induction false} AssignAppend(m: map<string, string>, a: seq<Option<Assignment>>, b: seq<Option<Assignment>>)
    ensures Assign(m, a + b) == Assign(Assign(m, a), b)
    decreases |b|
  {
    if b == [] {
      assert a + b == a;
    } else {
      var n := |b| - 1;
      AssignAppend(m, a, b[..n]);
      assert (a + b)[..|a| + n] == a + b[..n];
    }
  }

  /** Writing two files one after the other is writing their concatenation. */
  lemma ApplyLinesAppend(m: map<string, string>, xs: seq<string>, ys: seq<string>)
    ensures ApplyLines(m, xs + ys) == ApplyLines(ApplyLines(m, xs), ys)
  {
    ParseLinesAppend(xs, ys);
    AssignAppend(m, ParseLines(xs), ParseLines(ys));
  }

  /** A line that does not parse (blank, comment, no `=`) can be deleted without changing the result. */
  lemma SkippedLineIsInert(m: map<string, string>, before: seq<string>, raw: string, after: seq<string>)
    requires ParseLine(raw).None?
    ensures ApplyLines(m, before + [raw] + after) == ApplyLines(m, before + after)
  {
    var pb, pa := ParseLines(before), ParseLines(after);
    assert ParseLines([raw]) == [None];
    ParseLinesAppend(before, [raw]);
    ParseLinesAppend(before + [raw], after);
    ParseLinesAppend(before, after);
    assert ParseLines(before + [raw] + after) == pb + [None] + pa;
    SkippedAssignmentIsInert(m, pb, pa);
  }

  /** Writing the same file twice has the effect of writing it once. */
  lemma ApplyLinesTwice(m: map<string, string>, lines: seq<string>)
    ensures ApplyLines(ApplyLines(m, lines), lines) == ApplyLines(m, lines)
  {
    ApplyLinesIsOverlay(m, lines);
    ApplyLinesIsOverlay(m + ParseFile(lines), lines);
    assert (m + ParseFile(lines)) + ParseFile(lines) == m + ParseFile(lines);
  }

  /** Go's `map[string]string` that `LoadEnvFiles` creates and `loadEnvFile` writes into in place. */
  class EnvMap {
    var vars: map<string, string>

    constructor()
      ensures vars == map[]
    {
      vars := map[];
    }
  }

  /** The body of the scanning loop: a line that parses sets its key in `envs`, overwriting. */
  method ApplyLine(raw: string, envs: EnvMap)
    modifies envs
    ensures envs.vars == ApplyLines(old(envs.vars), [raw])
  {
    ApplyOneLine(envs.vars, raw);
    match ParseLine(raw) {
      case None =>
        // a blank line, a comment or a line without `=` is skipped
      case Some(a) =>
        envs.vars := envs.vars[a.key := a.value];
    }
  }

  /**
   * `loadEnvFile`: opens `path`; a file that does not exist is skipped
   * without error; otherwise every line the scanner delivers is written into
   * `envs`, and the call fails when the open or the scan fails. Lines read
   * before a scan failure stay written.
   */
  method LoadEnvFile(fs: FS, path: string, envs: EnvMap) returns (ok: bool)
    modifies envs
    ensures ok <==> !LoadFails(Lookup(fs, path).open)
    ensures envs.vars == ApplyLines(old(envs.vars), LinesRead(Lookup(fs, path).open))
  {
    match Lookup(fs, path).open
    case NotExist =>
      return true;
    case OpenError =>
      return false;
    case Opened(lines, scanErr) =>
      var i := 0;
      while i < |lines|
        invariant 0 <= i <= |lines|
        invariant envs.vars == ApplyLines(old(envs.vars), lines[..i])
      {
        ApplyLine(lines[i], envs);
        ApplyLinesAppend(old(envs.vars), lines[..i], [lines[i]]);
        assert lines[..i] + [lines[i]] == lines[..i + 1];
        i := i + 1;
      }
      assert lines[..|lines|] == lines;
      return !scanErr;
  }
}
