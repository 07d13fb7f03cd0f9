/**
 * The pieces of Go's `strings` and `path/filepath` packages that the resolver
 * relies on: `strings.TrimSpace`, `strings.HasPrefix`, the two-way
 * `strings.SplitN(s, "=", 2)` and `filepath.Join`.
 */
module Text {
  import opened Wrappers

  /** The characters Go's `unicode.IsSpace` accepts: the Unicode White_Space set. */
  predicate IsSpace(c: char) {
    || c == ' ' || c == '\t' || c == '\n' || c == '\r'
    || c == '\U{000B}' || c == '\U{000C}' || c == '\U{0085}' || c == '\U{00A0}'
    || c == '\U{1680}' || ('\U{2000}' <= c <= '\U{200A}')
    || c == '\U{2028}' || c == '\U{2029}' || c == '\U{202F}' || c == '\U{205F}' || c == '\U{3000}'
  }

  /** `s` neither starts nor ends with white space. */
  predicate Trimmed(s: string) {
    s == [] || (!IsSpace(s[0]) && !IsSpace(s[|s| - 1]))
  }

  /** The number of white-space characters `s` starts with. */
  function LeadingSpaces(s: string): (n: nat)
    ensures n <= |s|
  {
    if s != [] && IsSpace(s[0]) then 1 + LeadingSpaces(s[1..]) else 0
  }

  /** `strings.TrimSpace`: cuts white space from the front, then from the back, one character at a time. */
  function TrimSpace(s: string): string
    decreases |s|
  {
    if s != [] && IsSpace(s[0]) then TrimSpace(s[1..])
    else if s != [] && IsSpace(s[|s| - 1]) then TrimSpace(s[..|s| - 1])
    else s
  }

  /**
   * TrimSpace leaves the slice of `s` that remains once the white space at
   * both ends is cut: it starts after the leading white space, everything
   * cut away is white space, and the result neither starts nor ends with
   * white space.
   */
  lemma {:induction false} TrimSpaceSpec(s: string)
    ensures LeadingSpaces(s) + |TrimSpace(s)| <= |s|
    ensures TrimSpace(s) == s[LeadingSpaces(s)..LeadingSpaces(s) + |TrimSpace(s)|]
    ensures forall k :: 0 <= k < LeadingSpaces(s) ==> IsSpace(s[k])
    ensures forall k :: LeadingSpaces(s) + |TrimSpace(s)| <= k < |s| ==> IsSpace(s[k])
    ensures Trimmed(TrimSpace(s))
    decreases |s|
  {
    if s != [] && IsSpace(s[0]) {
      var rest := s[1..];
      TrimSpaceSpec(rest);
      assert forall k :: 1 <= k < |s| ==> s[k] == rest[k - 1];
    } else if s != [] && IsSpace(s[|s| - 1]) {
      var init := s[..|s| - 1];
      assert init[0] == s[0];
      TrimSpaceSpec(init);
      assert forall k :: 0 <= k < |init| ==> s[k] == init[k];
    }
  }

  /** A string without white space at its ends is its own TrimSpace. */
  lemma TrimSpaceOfTrimmed(s: string)
    requires Trimmed(s)
    ensures TrimSpace(s) == s
  {
  }

  /** TrimSpace is idempotent. */
  lemma TrimSpaceIdempotent(s: string)
    ensures TrimSpace(TrimSpace(s)) == TrimSpace(s)
  {
    TrimSpaceSpec(s);
    TrimSpaceOfTrimmed(TrimSpace(s));
  }

  /** `strings.HasPrefix`. */
  predicate HasPrefix(s: string, prefix: string) {
    |prefix| <= |s| && s[..|prefix|] == prefix
  }

  /**
   * `strings.SplitN(s, [sep], 2)`: None when `sep` does not occur (SplitN
   * then yields one part); otherwise the text before the first `sep` and
   * everything after it.
   */
  function SplitFirst(s: string, sep: char): Option<(string, string)> {
    if s == [] then None
    else if s[0] == sep then Some(([], s[1..]))
    else match SplitFirst(s[1..], sep)
      case None => None
      case Some((before, after)) => Some(([s[0]] + before, after))
  }

  /**
   * SplitFirst finds no part exactly when the separator does not occur, and
   * otherwise splits at its FIRST occurrence: the head holds no separator
   * and head, separator and tail put together give back the input.
   */
  lemma {:induction false} SplitFirstSpec(s: string, sep: char)
    ensures SplitFirst(s, sep).None? <==> sep !in s
    ensures SplitFirst(s, sep).Some? ==>
      var (before, after) := SplitFirst(s, sep).value;
      sep !in before && s == before + [sep] + after
  {
    if s != [] && s[0] != sep {
      SplitFirstSpec(s[1..], sep);
      assert s == [s[0]] + s[1..];
    }
  }

  /** SplitFirst undoes the joining of a separator-free head to any tail. */
  lemma {:induction false} SplitFirstOfJoined(head: string, sep: char, tail: string)
    requires sep !in head
    ensures SplitFirst(head + [sep] + tail, sep) == Some((head, tail))
  {
    var s := head + [sep] + tail;
    if head == [] {
      assert s[0] == sep && s[1..] == tail;
    } else {
      assert s[0] == head[0] != sep;
      assert s[1..] == head[1..] + [sep] + tail;
      SplitFirstOfJoined(head[1..], sep, tail);
      assert [head[0]] + head[1..] == head;
    }
  }

  /** `filepath.Join(dir, name)` for a non-empty `dir`; path cleaning is not modelled. */
  function Join(dir: string, name: string): string {
    dir + "/" + name
  }
}
