/** `sanitize_filename` (app.py:22-26): fold the name to ASCII through Unicode
    compatibility decomposition (NFKD) followed by dropping every non-ASCII character,
    turn spaces into underscores, then delete every character outside `[A-Za-z0-9_.-]`.

    The NFKD table itself is not modelled; it is the parameter `d`, which maps each
    character to its full compatibility decomposition. NFKD of a string is the
    per-character decomposition followed by canonical reordering of combining marks;
    combining marks are all outside ASCII, so after the ASCII filter the reordering
    leaves no trace and the fold is `Keep(IsAsciiChar, Decompose(d, s))`. */
module FileNames {
  import opened Strings

  /** A compatibility-decomposition table: each character to its NFKD expansion. */
  type Decomposition = char -> string

  /** Unicode decomposes every ASCII character to itself. */
  ghost predicate FixesAscii(d: Decomposition) {
    forall c: char :: IsAsciiChar(c) ==> d(c) == [c]
  }

  /** Characters the regular expression `[^\w\-_\.]` does not delete, once the input is
      ASCII (where `\w` is `[A-Za-z0-9_]`). */
  predicate IsFileNameChar(c: char) {
    || 'A' <= c <= 'Z'
    || 'a' <= c <= 'z'
    || '0' <= c <= '9'
    || c == '_' || c == '-' || c == '.'
  }

  /** The per-character decomposition of `s`, expansions concatenated in order. */
  function Decompose(d: Decomposition, s: string): (r: string)
    ensures FixesAscii(d) && IsAscii(s) ==> r == s
  {
    if |s| == 0 then "" else d(s[0]) + Decompose(d, s[1..])
  }

  /** `unicodedata.normalize('NFKD', s).encode('ascii', 'ignore').decode()` (app.py:23):
      always ASCII, and the identity on ASCII input. */
  function AsciiFold(d: Decomposition, s: string): (r: string)
    ensures IsAscii(r)
    ensures FixesAscii(d) && IsAscii(s) ==> r == s
  {
    Keep(IsAsciiChar, Decompose(d, s))
  }

  /** `sanitize_filename(name)` (app.py:22-26). */
  function Sanitize(d: Decomposition, name: string): (r: string)
    ensures forall i :: 0 <= i < |r| ==> IsFileNameChar(r[i])
    ensures ' ' !in r
  {
    Keep(IsFileNameChar, ReplaceChar(AsciiFold(d, name), ' ', '_'))
  }

  /** What one ASCII character of the name becomes: a space an underscore, an allowed
      character itself, anything else nothing. */
  function CleanChar(c: char): string {
    if c == ' ' then "_" else if IsFileNameChar(c) then [c] else ""
  }

  /** Reference reading of steps two and three (app.py:24-25), one character at a time. */
  function Cleaned(s: string): string {
    if |s| == 0 then "" else CleanChar(s[0]) + Cleaned(s[1..])
  }

  lemma {:induction false} DecomposeAppend(d: Decomposition, a: string, b: string)
    ensures Decompose(d, a + b) == Decompose(d, a) + Decompose(d, b)
  {
    if |a| == 0 {
      assert a + b == b;
    } else {
      assert (a + b)[1..] == a[1..] + b;
      DecomposeAppend(d, a[1..], b);
    }
  }

  /** Replacing spaces and then deleting disallowed characters is the per-character
      reading `Cleaned`. */
  lemma {:induction false} ReplaceThenKeep(s: string)
    ensures Keep(IsFileNameChar, ReplaceChar(s, ' ', '_')) == Cleaned(s)
  {
    if |s| > 0 {
      var r := ReplaceChar(s, ' ', '_');
      assert r[1..] == ReplaceChar(s[1..], ' ', '_');
      ReplaceThenKeep(s[1..]);
    }
  }

  /** For every decomposition table the sanitizer is the ASCII fold followed by the
      per-character reading: each space becomes `_`, each allowed character is kept,
      every other character is deleted. */
  lemma SanitizeIsCleanedFold(d: Decomposition, name: string)
    ensures Sanitize(d, name) == Cleaned(AsciiFold(d, name))
  {
    ReplaceThenKeep(AsciiFold(d, name));
  }

  /** On ASCII names the fold does nothing, so the sanitizer is `Cleaned` itself:
      nothing is reordered or inserted. */
  lemma SanitizeAscii(d: Decomposition, name: string)
    requires FixesAscii(d)
    requires IsAscii(name)
    ensures Sanitize(d, name) == Cleaned(name)
  {
    SanitizeIsCleanedFold(d, name);
  }

  /** The sanitizer works character by character: the result for `a + b` is the result
      for `a` followed by the result for `b`, for every decomposition table. */
  lemma SanitizeAppend(d: Decomposition, a: string, b: string)
    ensures Sanitize(d, a + b) == Sanitize(d, a) + Sanitize(d, b)
  {
    DecomposeAppend(d, a, b);
    KeepAppend(IsAsciiChar, Decompose(d, a), Decompose(d, b));
    ReplaceAppend(AsciiFold(d, a), AsciiFold(d, b), ' ', '_');
    KeepAppend(IsFileNameChar, ReplaceChar(AsciiFold(d, a), ' ', '_'), ReplaceChar(AsciiFold(d, b), ' ', '_'));
  }

  /** A name made only of allowed characters is already sanitized. */
  lemma SanitizeFixesClean(d: Decomposition, name: string)
    requires FixesAscii(d)
    requires forall i :: 0 <= i < |name| ==> IsFileNameChar(name[i])
    ensures Sanitize(d, name) == name
  {
    assert IsAscii(name);
    assert AsciiFold(d, name) == name;
    assert ' ' !in name;
    assert ReplaceChar(name, ' ', '_') == name;
  }

  /** Sanitizing twice is sanitizing once. */
  lemma SanitizeIdempotent(d: Decomposition, name: string)
    requires FixesAscii(d)
    ensures Sanitize(d, Sanitize(d, name)) == Sanitize(d, name)
  {
    SanitizeFixesClean(d, Sanitize(d, name));
  }

  /** A letter whose decomposition is an ASCII base followed by combining marks outside
      ASCII (`é` is `e` and U+0301) sanitizes as its base: the marks are dropped. */
  lemma AccentFoldsToBase(d: Decomposition, c: char, base: char, marks: string)
    requires d(c) == [base] + marks
    requires IsAsciiChar(base)
    requires forall i :: 0 <= i < |marks| ==> !IsAsciiChar(marks[i])
    ensures Sanitize(d, [c]) == CleanChar(base)
  {
    assert [c][1..] == "";
    assert Decompose(d, [c]) == [base] + marks;
    assert Keep(IsAsciiChar, marks) == "" by { KeepNone(IsAsciiChar, marks); }
    KeepAppend(IsAsciiChar, [base], marks);
    assert AsciiFold(d, [c]) == [base];
    SanitizeIsCleanedFold(d, [c]);
  }
}
