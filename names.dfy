/** Character-level rules on file names shared by the server and the client:
    character-for-character replacement, ASCII lower-casing, the extension
    after the last dot (PHP's `pathinfo(..., PATHINFO_EXTENSION)`) and the
    removal of a final `.xxx` (the regular expression `/\.[^.]+$/` that both
    sides use to turn a file name into a caption stem). */
module Names {
  import opened Wrappers

  /** Applies `f` to every character; both regular-expression replacements in
      the gallery replace one character by one character. */
  function MapChars(s: string, f: char -> char): (r: string)
    ensures |r| == |s|
    ensures forall i :: 0 <= i < |s| ==> r[i] == f(s[i])
  {
    if s == [] then [] else [f(s[0])] + MapChars(s[1..], f)
  }

  /** PHP's `strtolower` on the ASCII letters (the only letters a sanitised
      name can hold). */
  function LowerChar(c: char): char {
    if 'A' <= c <= 'Z' then (c as int + 32) as char else c
  }

  function Lower(s: string): (r: string)
    ensures |r| == |s|
    ensures forall i :: 0 <= i < |s| ==> r[i] == LowerChar(s[i])
    ensures forall i :: 0 <= i < |r| ==> !('A' <= r[i] <= 'Z')
  {
    MapChars(s, LowerChar)
  }

  /** The position of the last `.` in `s`, if any. */
  function LastDot(s: string): (r: Option<nat>)
    ensures r.Some? ==> r.value < |s| && s[r.value] == '.'
    ensures r.Some? ==> forall j :: r.value < j < |s| ==> s[j] != '.'
    ensures r.None? <==> '.' !in s
  {
    if s == [] then None
    else if s[|s| - 1] == '.' then Some(|s| - 1)
    else LastDot(s[..|s| - 1])
  }

  /** `pathinfo($s, PATHINFO_EXTENSION)` for a name without directory
      separators: everything after the last dot, or "" when there is no dot. */
  function Extension(s: string): (e: string)
    ensures '.' !in e
    ensures '.' !in s ==> e == ""
    ensures '.' in s ==> |e| < |s| && s[|s| - |e| - 1] == '.' && s[|s| - |e|..] == e
  {
    match LastDot(s)
    case None => ""
    case Some(i) => s[i + 1..]
  }

  /** `preg_replace('/\.[^.]+$/', '', $s)` and `s.replace(/\.[^.]+$/, '')`:
      drops a final dot followed by at least one non-dot character. When the
      extension is empty (no dot, or a trailing dot) nothing matches. */
  function StripFinalExtension(s: string): (r: string)
    ensures Extension(s) == "" ==> r == s
    ensures Extension(s) != "" ==> r + "." + Extension(s) == s
  {
    match LastDot(s)
    case None => s
    case Some(i) =>
      if i + 1 < |s| then
        assert s == s[..i] + "." + s[i + 1..];
        s[..i]
      else s
  }

  /** A name that does not start with a dot keeps a non-empty stem. */
  lemma StemNonEmpty(s: string)
    requires s != "" && s[0] != '.'
    ensures StripFinalExtension(s) != ""
  {
  }
}
