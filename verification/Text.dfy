/** String operations the feedback code relies on, with the semantics of the
    Python built-ins it calls: `str.strip()`, `str.split(',')`, `','.join(...)`,
    and the ASCII case-insensitive equality an SQL `LIKE` gives to `iexact`. */
module Text {

  /** Python's `str.isspace()`: the characters `str.strip()` removes when it is
      called without arguments. */
  predicate IsSpace(c: char) {
    || ('\t' <= c <= '\r')
    || ('\U{1C}' <= c <= '\U{1F}')
    || c == ' '
    || c == '\U{85}'
    || c == '\U{A0}'
    || c == '\U{1680}'
    || ('\U{2000}' <= c <= '\U{200A}')
    || c == '\U{2028}'
    || c == '\U{2029}'
    || c == '\U{202F}'
    || c == '\U{205F}'
    || c == '\U{3000}'
  }

  predicate AllSpace(s: string) {
    forall i :: 0 <= i < |s| ==> IsSpace(s[i])
  }

  /** Neither end of `s` is whitespace. */
  predicate Trimmed(s: string) {
    s == [] || (!IsSpace(s[0]) && !IsSpace(s[|s| - 1]))
  }

  /** `r` is `s` with a whitespace-only prefix and suffix cut away, and no
      whitespace is left at its ends. */
  ghost predicate IsStripOf(r: string, s: string) {
    exists i, j :: 0 <= i <= j <= |s| && r == s[i..j] && AllSpace(s[..i]) && AllSpace(s[j..]) && Trimmed(r)
  }

  /** The first index at or after `i` that is not whitespace (or `|s|`). */
  function SkipSpace(s: string, i: nat): (k: nat)
    requires i <= |s|
    ensures i <= k <= |s|
    ensures forall m :: i <= m < k ==> IsSpace(s[m])
    ensures k < |s| ==> !IsSpace(s[k])
    decreases |s| - i
  {
    if i == |s| || !IsSpace(s[i]) then i else SkipSpace(s, i + 1)
  }

  /** The end of `s[..j]` once its trailing whitespace is dropped. */
  function SkipSpaceBack(s: string, j: nat): (k: nat)
    requires j <= |s|
    ensures k <= j
    ensures forall m :: k <= m < j ==> IsSpace(s[m])
    ensures k > 0 ==> !IsSpace(s[k - 1])
  {
    if j == 0 || !IsSpace(s[j - 1]) then j else SkipSpaceBack(s, j - 1)
  }

  /** Python's `s.strip()`. */
  function Strip(s: string): (r: string)
    ensures Trimmed(r)
    ensures IsStripOf(r, s)
  {
    var b := SkipSpace(s, 0);
    var e := SkipSpaceBack(s, |s|);
    if b < e then
      assert AllSpace(s[..b]) && AllSpace(s[e..]);
      s[b..e]
    else
      assert AllSpace(s[..b]) && AllSpace(s[b..]);
      assert s[b..b] == "";
      ""
  }

  /** A string already free of edge whitespace is its own strip. */
  lemma StripTrimmed(s: string)
    requires Trimmed(s)
    ensures Strip(s) == s
  {
    assert SkipSpace(s, 0) == 0;
    assert SkipSpaceBack(s, |s|) == |s|;
    assert s[0..|s|] == s;
  }

  /** Stripping twice is stripping once. */
  lemma StripIdempotent(s: string)
    ensures Strip(Strip(s)) == Strip(s)
  {
    StripTrimmed(Strip(s));
  }

  /** The separator the `keywords` field is split on. */
  const Comma: char := ','

  /** The position of the first `c` in `s`. */
  function IndexOf(s: string, c: char): (k: nat)
    requires c in s
    ensures k < |s| && s[k] == c
    ensures forall m :: 0 <= m < k ==> s[m] != c
  {
    if s[0] == c then 0 else 1 + IndexOf(s[1..], c)
  }

  /** Python's `','.join(parts)`. */
  function Join(parts: seq<string>): string {
    if |parts| == 0 then ""
    else if |parts| == 1 then parts[0]
    else parts[0] + [Comma] + Join(parts[1..])
  }

  /** Python's `s.split(',')`: the pieces between commas, empty ones included;
      joining them back with commas gives `s` again. */
  function Split(s: string): (parts: seq<string>)
    ensures |parts| >= 1
    ensures forall i :: 0 <= i < |parts| ==> Comma !in parts[i]
    ensures Join(parts) == s
    decreases |s|
  {
    if Comma !in s then [s]
    else
      var k := IndexOf(s, Comma);
      var rest := Split(s[k + 1..]);
      assert ([s[..k]] + rest)[1..] == rest;
      assert s == s[..k] + [Comma] + s[k + 1..];
      [s[..k]] + rest
  }

  /** Splitting comma-free pieces joined with commas gives the pieces back. */
  lemma {:induction false} SplitJoin(parts: seq<string>)
    requires |parts| >= 1
    requires forall i :: 0 <= i < |parts| ==> Comma !in parts[i]
    ensures Split(Join(parts)) == parts
    decreases |parts|
  {
    if |parts| > 1 {
      var s := Join(parts);
      var p := parts[0];
      assert s == p + [Comma] + Join(parts[1..]);
      assert s[|p|] == Comma;
      assert IndexOf(s, Comma) == |p|;
      assert s[..|p|] == p;
      assert s[|p| + 1..] == Join(parts[1..]);
      SplitJoin(parts[1..]);
      assert parts == [p] + parts[1..];
    }
  }

  /** ASCII lower-casing: SQLite's `LIKE`, which Django uses for `iexact`,
      folds only the ASCII letters. */
  function LowerAscii(c: char): char {
    if 'A' <= c <= 'Z' then (c as int + 32) as char else c
  }

  function Fold(s: string): (r: string)
    ensures |r| == |s|
    ensures forall i :: 0 <= i < |s| ==> r[i] == LowerAscii(s[i])
  {
    seq(|s|, i requires 0 <= i < |s| => LowerAscii(s[i]))
  }

  /** Django's `iexact` lookup. */
  predicate EqualsIgnoreCase(a: string, b: string) {
    Fold(a) == Fold(b)
  }

  /** `x` and `y` are the same character, or the same ASCII letter in its
      upper- and lower-case forms. */
  predicate SameLetter(x: char, y: char) {
    || x == y
    || ('A' <= x <= 'Z' && y as int == x as int + 32)
    || ('A' <= y <= 'Z' && x as int == y as int + 32)
  }

  /** Two characters fold to the same one exactly when they are the same
      letter: an upper-case ASCII letter matches only itself and its own
      lower-case form, and every other character only itself. */
  lemma LowerAsciiMatches(x: char, y: char)
    ensures LowerAscii(x) == LowerAscii(y) <==> SameLetter(x, y)
  {
    if 'A' <= x <= 'Z' && 'A' <= y <= 'Z' {
      assert LowerAscii(x) as int == x as int + 32;
      assert LowerAscii(y) as int == y as int + 32;
    } else if 'A' <= x <= 'Z' {
      assert LowerAscii(x) as int == x as int + 32;
    } else if 'A' <= y <= 'Z' {
      assert LowerAscii(y) as int == y as int + 32;
    }
  }

  /** `iexact` equality holds exactly when both strings have the same length
      and agree position by position up to the case of ASCII letters. */
  lemma EqualsIgnoreCaseExactly(a: string, b: string)
    ensures EqualsIgnoreCase(a, b) <==>
      |a| == |b| && forall i :: 0 <= i < |a| ==> SameLetter(a[i], b[i])
  {
    if |a| == |b| {
      forall i | 0 <= i < |a|
        ensures LowerAscii(a[i]) == LowerAscii(b[i]) <==> SameLetter(a[i], b[i])
      {
        LowerAsciiMatches(a[i], b[i]);
      }
      if forall i :: 0 <= i < |a| ==> SameLetter(a[i], b[i]) {
        assert Fold(a) == Fold(b);
      }
    }
  }
}
