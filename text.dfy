/** The string trimming that the request handlers apply to text fields, as
    ECMAScript's `String.prototype.trim` defines it: white space and line
    terminators are removed from both ends. */
module Text {
  import opened Wrappers

  /** ECMAScript WhiteSpace (TAB, VT, FF, ZWNBSP and every space separator) and
      LineTerminator (LF, CR, LS, PS). */
  const Whitespace: set<char> :=
    {'\t', '\n', '\U{000B}', '\U{000C}', '\r', ' ', '\U{00A0}', '\U{1680}',
     '\U{2000}', '\U{2001}', '\U{2002}', '\U{2003}', '\U{2004}', '\U{2005}',
     '\U{2006}', '\U{2007}', '\U{2008}', '\U{2009}', '\U{200A}', '\U{2028}',
     '\U{2029}', '\U{202F}', '\U{205F}', '\U{3000}', '\U{FEFF}'}

  predicate IsWhitespace(c: char) {
    c in Whitespace
  }

  predicate AllWhitespace(s: string) {
    forall i | 0 <= i < |s| :: IsWhitespace(s[i])
  }

  /** Neither end of `s` is white space: what `trim` leaves behind. */
  predicate IsTrimmed(s: string) {
    s == [] || (!IsWhitespace(s[0]) && !IsWhitespace(s[|s| - 1]))
  }

  /** The number of white-space characters at the start of `s`. */
  function LeadingBlanks(s: string): (n: nat)
    ensures n <= |s|
    ensures forall k | 0 <= k < n :: IsWhitespace(s[k])
    ensures n < |s| ==> !IsWhitespace(s[n])
  {
    if s != [] && IsWhitespace(s[0]) then 1 + LeadingBlanks(s[1..]) else 0
  }

  /** The index at which the white space at the end of `s` begins. */
  function TrailingBlanksFrom(s: string): (j: nat)
    ensures j <= |s|
    ensures forall k | j <= k < |s| :: IsWhitespace(s[k])
    ensures 0 < j ==> !IsWhitespace(s[j - 1])
  {
    if s != [] && IsWhitespace(s[|s| - 1]) then TrailingBlanksFrom(s[..|s| - 1]) else |s|
  }

  /** Where the trimmed text ends: the start of the trailing white space, or the end
      of the leading white space when `s` is blank. */
  function TrimEndIndex(s: string): (j: nat)
    ensures LeadingBlanks(s) <= j <= |s|
    ensures forall k | j <= k < |s| :: IsWhitespace(s[k])
    ensures LeadingBlanks(s) < j ==> !IsWhitespace(s[j - 1])
  {
    if TrailingBlanksFrom(s) < LeadingBlanks(s) then LeadingBlanks(s) else TrailingBlanksFrom(s)
  }

  /** `r` is `s` with the white space at both ends cut off: a slice of `s` with only
      white space before and after it, and no white space at either of its own ends. */
  predicate TrimOf(s: string, r: string) {
    && IsTrimmed(r)
    && exists i, j | 0 <= i <= j <= |s| :: r == s[i..j] && BlankOutside(s, i, j)
  }

  /** Everything in `s` before index `i` and from index `j` on is white space. */
  predicate BlankOutside(s: string, i: int, j: int) {
    && (forall k | 0 <= k < i && k < |s| :: IsWhitespace(s[k]))
    && (forall k | 0 <= j <= k < |s| :: IsWhitespace(s[k]))
  }

  /** `s.trim()`: the slice of `s` between its leading and its trailing white space.
      It keeps every character of `s` that is not white space, adds none, and is
      empty exactly when `s` is all white space. */
  function Trim(s: string): (r: string)
    ensures TrimOf(s, r)
    ensures |r| <= |s|
    ensures r == [] <==> AllWhitespace(s)
    ensures forall c | c in r :: c in s
    ensures forall i | 0 <= i < |s| && !IsWhitespace(s[i]) :: s[i] in r
  {
    TrimBounds(s, LeadingBlanks(s), TrimEndIndex(s));
    s[LeadingBlanks(s)..TrimEndIndex(s)]
  }

  /** Cutting `s` at the end of its leading white space and at the start of its
      trailing white space gives its trim. */
  lemma TrimBounds(s: string, i: int, j: int)
    requires 0 <= i <= j <= |s|
    requires forall k | 0 <= k < i :: IsWhitespace(s[k])
    requires i < |s| ==> !IsWhitespace(s[i])
    requires forall k | j <= k < |s| :: IsWhitespace(s[k])
    requires i < j ==> !IsWhitespace(s[j - 1])
    ensures TrimOf(s, s[i..j])
    ensures s[i..j] == [] <==> AllWhitespace(s)
    ensures forall c | c in s[i..j] :: c in s
    ensures forall m | 0 <= m < |s| && !IsWhitespace(s[m]) :: s[m] in s[i..j]
  {
    assert BlankOutside(s, i, j);
    if i < j {
      SliceEnds(s, i, j);
    }
    TrimmedSlice(s, s[i..j], i, j);
    KeepsText(s, s[i..j], i, j);
  }

  /** A trimmed slice of `s` with only white space around it is a trim of `s`, is
      empty exactly when `s` is blank, and holds only characters of `s`. */
  lemma TrimmedSlice(s: string, r: string, i: int, j: int)
    requires 0 <= i <= j <= |s| && r == s[i..j] && BlankOutside(s, i, j) && IsTrimmed(r)
    ensures TrimOf(s, r)
    ensures r == [] <==> AllWhitespace(s)
    ensures forall c | c in r :: c in s
  {
    BlankBetween(s, i, j);
    if r != [] {
      assert !IsWhitespace(r[0]);
    }
    forall c | c in r ensures c in s {
      var m :| 0 <= m < |r| && r[m] == c;
      assert s[i + m] == c;
    }
  }

  /** A slice of `s` with only white space around it keeps every other character. */
  lemma KeepsText(s: string, r: string, i: int, j: int)
    requires 0 <= i <= j <= |s| && r == s[i..j] && BlankOutside(s, i, j)
    ensures forall m | 0 <= m < |s| && !IsWhitespace(s[m]) :: s[m] in r
  {
    forall m | 0 <= m < |s| && !IsWhitespace(s[m]) ensures s[m] in r {
      assert r[m - i] == s[m];
    }
  }

  /** Cutting the white space off both ends has only one outcome: any `r` that is the
      trim of `s` in the sense of `TrimOf` is what `Trim` returns. */
  lemma TrimOfUnique(s: string, r: string)
    requires TrimOf(s, r)
    ensures r == Trim(s)
  {
    TrimOfDeterministic(s, r, Trim(s));
  }

  /** Two trims of the same text are equal. */
  lemma TrimOfDeterministic(s: string, r: string, t: string)
    requires TrimOf(s, r) && TrimOf(s, t)
    ensures r == t
  {
    var i, j :| 0 <= i <= j <= |s| && r == s[i..j] && BlankOutside(s, i, j);
    var i', j' :| 0 <= i' <= j' <= |s| && t == s[i'..j'] && BlankOutside(s, i', j');
    BlankBetween(s, i, j);
    BlankBetween(s, i', j');
    if r != [] && t != [] {
      SameBounds(s, i, j, i', j');
    }
  }

  /** Two non-empty trimmed slices of `s` with only white space outside them have the
      same bounds. */
  lemma SameBounds(s: string, i: int, j: int, i': int, j': int)
    requires 0 <= i < j <= |s| && IsTrimmed(s[i..j]) && BlankOutside(s, i, j)
    requires 0 <= i' < j' <= |s| && IsTrimmed(s[i'..j']) && BlankOutside(s, i', j')
    ensures i == i' && j == j'
  {
    SliceEnds(s, i, j);
    SliceEnds(s, i', j');
  }

  /** The first and last characters of a non-empty slice. */
  lemma SliceEnds(s: string, i: int, j: int)
    requires 0 <= i < j <= |s|
    ensures s[i..j][0] == s[i] && s[i..j][j - i - 1] == s[j - 1]
  {
  }

  /** When the slice between two white-space runs is blank, so is all of `s`. */
  lemma BlankBetween(s: string, i: nat, j: nat)
    requires i <= j <= |s| && BlankOutside(s, i, j)
    ensures AllWhitespace(s[i..j]) <==> AllWhitespace(s)
  {
    forall k | 0 <= k < |s| && AllWhitespace(s[i..j]) ensures IsWhitespace(s[k]) {
      if i <= k < j {
        assert s[k] == s[i..j][k - i];
      }
    }
    forall k | 0 <= k < j - i && AllWhitespace(s) ensures IsWhitespace(s[i..j][k]) {
      assert s[i..j][k] == s[i + k];
    }
  }

  /** Trimming text that is already trimmed leaves it unchanged. */
  lemma TrimTrimmed(s: string)
    requires IsTrimmed(s)
    ensures Trim(s) == s
  {
    assert s == s[0..|s|] && BlankOutside(s, 0, |s|);
    TrimOfUnique(s, s);
  }

  /** Trimming twice is trimming once. */
  lemma TrimIdempotent(s: string)
    ensures Trim(Trim(s)) == Trim(s)
  {
    TrimTrimmed(Trim(s));
  }

  /** A required text field: `typeof f === "string" ? f.trim() : ""`. */
  function RequiredText(raw: Option<string>): (r: string)
    ensures raw.Some? ==> TrimOf(raw.value, r)
    ensures raw.None? ==> r == ""
    ensures r == [] <==> raw.None? || AllWhitespace(raw.value)
  {
    if raw.Some? then Trim(raw.value) else ""
  }

  /** An optional text field, null when it is not a string or blank after trimming:
      `typeof f === "string" && f.trim().length > 0 ? f.trim() : null`,
      equivalently `f?.trim() || null`. */
  function OptionalText(raw: Option<string>): (r: Option<string>)
    ensures r.None? <==> raw.None? || AllWhitespace(raw.value)
    ensures r.Some? ==> raw.Some? && r.value != [] && TrimOf(raw.value, r.value)
  {
    if raw.Some? && Trim(raw.value) != "" then Some(Trim(raw.value)) else None
  }
}
