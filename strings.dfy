/** String helpers used by the cleaning pipeline: Python's `str.strip()` and
    `str.lower()` (pandas' `.str.strip().str.lower()`), the two regular
    expression searches `\d+` and `\D+` behind the duration split, the
    decimal reading done by `.astype(float)`, and `str.replace` as used to
    derive the sample file name. */
module Strings {
  import opened Wrappers

  // ---------------------------------------------------------------- strip

  /** Python's `str.isspace()` for one character: ASCII 9-13, 28-32 and the
      Unicode separators Python treats as whitespace. `str.strip()` with no
      argument removes exactly these characters. */
  predicate IsSpace(c: char) {
    c in SPACES
  }

  /** The characters of `IsSpace`, listed one by one. */
  const SPACES: set<char> :=
    { ' ', '\t', '\n', '\U{0b}', '\U{0c}', '\r', '\U{1c}', '\U{1d}', '\U{1e}', '\U{1f}',
      '\U{85}', '\U{a0}', '\U{1680}',
      '\U{2000}', '\U{2001}', '\U{2002}', '\U{2003}', '\U{2004}', '\U{2005}',
      '\U{2006}', '\U{2007}', '\U{2008}', '\U{2009}', '\U{200a}',
      '\U{2028}', '\U{2029}', '\U{202f}', '\U{205f}', '\U{3000}' }

  /** The first position at or after `i` that does not hold whitespace, or
      `|s|` when there is none. */
  function SpacesFrom(s: string, i: nat): (k: nat)
    requires i <= |s|
    ensures i <= k <= |s|
    ensures forall j :: i <= j < k ==> IsSpace(s[j])
    ensures k == |s| || !IsSpace(s[k])
    decreases |s| - i
  {
    if i == |s| || !IsSpace(s[i]) then i else SpacesFrom(s, i + 1)
  }

  /** The position just past the last non-whitespace character before `e`,
      looking no further back than `lo`. */
  function SpacesBefore(s: string, e: nat, lo: nat): (k: nat)
    requires lo <= e <= |s|
    ensures lo <= k <= e
    ensures forall j :: k <= j < e ==> IsSpace(s[j])
    ensures k == lo || !IsSpace(s[k - 1])
    decreases e - lo
  {
    if e == lo || !IsSpace(s[e - 1]) then e else SpacesBefore(s, e - 1, lo)
  }

  /** Number of whitespace characters at the front of `s`. */
  function LeadingSpaces(s: string): (n: nat)
    ensures n <= |s|
    ensures forall i :: 0 <= i < n ==> IsSpace(s[i])
    ensures n == |s| || !IsSpace(s[n])
  {
    SpacesFrom(s, 0)
  }

  /** The `n` characters of `s` from position `a` on are all that is left
      once whitespace is removed from both ends: everything before and after
      them is whitespace. */
  predicate StrippedAt(s: string, a: nat, n: nat) {
    a + n <= |s|
    && (forall i :: 0 <= i < a ==> IsSpace(s[i]))
    && (forall i :: a + n <= i < |s| ==> IsSpace(s[i]))
  }

  /** `str.strip()`: the infix of `s` left after removing whitespace from
      both ends; it neither starts nor ends with whitespace. */
  function Strip(s: string): (r: string)
    ensures |r| <= |s|
    ensures r == [] || (!IsSpace(r[0]) && !IsSpace(r[|r| - 1]))
    ensures StrippedAt(s, LeadingSpaces(s), |r|) && r == s[LeadingSpaces(s)..LeadingSpaces(s) + |r|]
    ensures (forall c :: c in s ==> IsSpace(c)) <==> r == []
  {
    var front := LeadingSpaces(s);
    var back := SpacesBefore(s, |s|, front);
    var r := s[front..back];
    assert r != [] ==> r[0] == s[front] && r[|r| - 1] == s[back - 1];
    assert r == [] ==> front == |s|;
    r
  }

  /** A string that already has no surrounding whitespace is left alone. */
  lemma {:induction false} StripOfStripped(s: string)
    requires s == [] || (!IsSpace(s[0]) && !IsSpace(s[|s| - 1]))
    ensures Strip(s) == s
  {
    if s != [] {
      assert LeadingSpaces(s) == 0;
      assert SpacesBefore(s, |s|, 0) == |s|;
      assert s[0..|s|] == s;
    }
  }

  // ---------------------------------------------------------------- lower

  /** Upper-case letters: ASCII `A`-`Z` and the Latin-1 capitals. */
  predicate IsUpper(c: char) {
    ('A' <= c <= 'Z') || ('\U{c0}' <= c <= '\U{de}' && c != '\U{d7}')
  }

  /** `str.lower()` on one character, for the letters of `IsUpper`. */
  function LowerChar(c: char): (r: char)
    ensures !IsUpper(r)
    ensures !IsUpper(c) ==> r == c
  {
    if IsUpper(c) then (c as int + 32) as char else c
  }

  /** Lower-casing neither creates nor removes whitespace. */
  lemma LowerCharKeepsSpace(c: char)
    ensures IsSpace(LowerChar(c)) <==> IsSpace(c)
  {
  }

  /** `str.lower()`: every capital becomes its small letter and every other
      character is kept. */
  function Lower(s: string): (r: string)
    ensures |r| == |s|
    ensures forall c :: c in r ==> !IsUpper(c)
    ensures forall i :: 0 <= i < |s| && !IsUpper(s[i]) ==> r[i] == s[i]
    ensures forall i :: 0 <= i < |s| && IsUpper(s[i]) ==> r[i] as int == s[i] as int + 32
  {
    seq(|s|, i requires 0 <= i < |s| => LowerChar(s[i]))
  }

  /** pandas' `.str.strip().str.lower()`, in that order: the stripped infix
      of `s`, lower-cased. */
  function Normalize(s: string): (r: string)
    ensures r == [] || (!IsSpace(r[0]) && !IsSpace(r[|r| - 1]))
    ensures forall c :: c in r ==> !IsUpper(c)
    ensures StrippedAt(s, LeadingSpaces(s), |r|)
    ensures r == Lower(s[LeadingSpaces(s)..LeadingSpaces(s) + |r|])
  {
    var st := Strip(s);
    LowerKeepsEnds(st);
    Lower(st)
  }

  /** Lower-casing keeps a string's ends free of whitespace. */
  lemma LowerKeepsEnds(s: string)
    requires s == [] || (!IsSpace(s[0]) && !IsSpace(s[|s| - 1]))
    ensures var r := Lower(s); r == [] || (!IsSpace(r[0]) && !IsSpace(r[|r| - 1]))
  {
    LowerByChar(s);
    if s != [] {
      LowerCharKeepsSpace(s[0]);
      LowerCharKeepsSpace(s[|s| - 1]);
    }
  }

  /** `Lower` maps each character through `LowerChar`. */
  lemma LowerByChar(s: string)
    ensures forall i :: 0 <= i < |s| ==> Lower(s)[i] == LowerChar(s[i])
  {
  }

  /** A string without capitals is its own lower case. */
  lemma LowerOfLower(s: string)
    requires forall c :: c in s ==> !IsUpper(c)
    ensures Lower(s) == s
  {
    var l := Lower(s);
    assert forall i :: 0 <= i < |s| ==> l[i] == s[i];
  }

  /** Text normalisation is idempotent: a second pass changes nothing. */
  lemma NormalizeIdempotent(s: string)
    ensures Normalize(Normalize(s)) == Normalize(s)
  {
    var n := Normalize(s);
    StripOfStripped(n);
    LowerOfLower(n);
  }

  // ---------------------------------------------------------------- digit runs

  /** The regular-expression class `\d`, for ASCII digits. */
  predicate IsDigit(c: char) {
    '0' <= c <= '9'
  }

  /** Index of the first character of `s` at or after `from` whose digit-ness
      is `digits`, or `|s|` when there is none. */
  function RunStart(s: string, from: nat, digits: bool): (k: nat)
    requires from <= |s|
    ensures from <= k <= |s|
    ensures forall i :: from <= i < k ==> IsDigit(s[i]) != digits
    ensures k == |s| || IsDigit(s[k]) == digits
    decreases |s| - from
  {
    if from == |s| || IsDigit(s[from]) == digits then from else RunStart(s, from + 1, digits)
  }

  /** Index just past the run of characters of the same digit-ness that
      starts at `from`. */
  function RunEnd(s: string, from: nat, digits: bool): (k: nat)
    requires from <= |s|
    ensures from <= k <= |s|
    ensures forall i :: from <= i < k ==> IsDigit(s[i]) == digits
    ensures k == |s| || IsDigit(s[k]) != digits
    decreases |s| - from
  {
    if from == |s| || IsDigit(s[from]) != digits then from else RunEnd(s, from + 1, digits)
  }

  /** The leftmost match of `\d+` (when `digits`) or `\D+` (otherwise), as
      Python's `re.search` finds it: the first maximal run of characters of
      that kind, or `None` when `s` has no such character. */
  function FirstRun(s: string, digits: bool): (r: Option<string>)
    ensures r.None? <==> forall i :: 0 <= i < |s| ==> IsDigit(s[i]) != digits
    ensures r.Some? ==> r.value != [] && forall c :: c in r.value ==> IsDigit(c) == digits
    ensures r.Some? ==> exists a: nat :: OccursAt(s, r.value, a)
  {
    var k := RunStart(s, 0, digits);
    if k == |s| then None
    else
      var r := s[k..RunEnd(s, k, digits)];
      assert r[0] == s[k] && OccursAt(s, r, k);
      Some(r)
  }

  /** `FirstRun` pinned down exactly: the run found begins at the first
      character of the right kind and cannot be extended to the right. */
  lemma FirstRunIsLeftmostMaximal(s: string, digits: bool, k: nat, e: nat)
    requires k <= e <= |s|
    requires forall i :: 0 <= i < k ==> IsDigit(s[i]) != digits
    requires k < e && forall i :: k <= i < e ==> IsDigit(s[i]) == digits
    requires e == |s| || IsDigit(s[e]) != digits
    ensures FirstRun(s, digits) == Some(s[k..e])
  {
    var k' := RunStart(s, 0, digits);
    assert IsDigit(s[k]) == digits;
    assert k' == k;
    var e' := RunEnd(s, k, digits);
    assert e' == e;
  }

  /** Value of a decimal digit. */
  function DigitValue(c: char): (d: nat)
    requires IsDigit(c)
    ensures d < 10
  {
    c as int - '0' as int
  }

  /** The number a string of decimal digits denotes, as `float("0042")`
      reads it (leading zeros allowed). */
  function DigitsValue(ds: string): (n: nat)
    requires forall c :: c in ds ==> IsDigit(c)
  {
    if ds == [] then 0 else 10 * DigitsValue(ds[..|ds| - 1]) + DigitValue(ds[|ds| - 1])
  }

  /** The decimal digit for a value below ten. */
  function DigitChar(d: nat): (c: char)
    requires d < 10
    ensures IsDigit(c) && DigitValue(c) == d
  {
    ('0' as int + d) as char
  }

  /** `n` written with exactly `width` decimal digits, padded with leading
      zeros (as `strftime` pads `%Y`, `%m` and `%d`); `n` must fit. */
  function PadDigits(n: nat, width: nat): (ds: string)
    ensures |ds| == width
    ensures forall c :: c in ds ==> IsDigit(c)
  {
    if width == 0 then [] else PadDigits(n / 10, width - 1) + [DigitChar(n % 10)]
  }

  /** Ten to the `w`. */
  function Pow10(w: nat): (p: nat)
    ensures p >= 1
  {
    if w == 0 then 1 else 10 * Pow10(w - 1)
  }

  /** Reading back a padded decimal gives the number written. */
  lemma {:induction false} PadDigitsRoundTrip(n: nat, width: nat)
    requires n < Pow10(width)
    ensures DigitsValue(PadDigits(n, width)) == n
  {
    if width > 0 {
      var ds := PadDigits(n, width);
      assert ds[..|ds| - 1] == PadDigits(n / 10, width - 1);
      PadDigitsRoundTrip(n / 10, width - 1);
    }
  }

  /** Writing a digit string's value back with as many digits as it had
      gives the string back, leading zeros included. */
  lemma {:induction false} DigitsRoundTrip(ds: string)
    requires forall c :: c in ds ==> IsDigit(c)
    ensures DigitsValue(ds) < Pow10(|ds|)
    ensures PadDigits(DigitsValue(ds), |ds|) == ds
  {
    if ds != [] {
      var init, c := ds[..|ds| - 1], ds[|ds| - 1];
      assert ds == init + [c];
      DigitsRoundTrip(init);
      var v := DigitsValue(init);
      assert (10 * v + DigitValue(c)) / 10 == v;
      assert (10 * v + DigitValue(c)) % 10 == DigitValue(c);
      assert DigitChar(DigitValue(c)) == c;
    }
  }

  // ---------------------------------------------------------------- replace

  /** Python's `s.replace(pat, rep)` for a non-empty `pat`: scanning from the
      left, every non-overlapping occurrence of `pat` is replaced. */
  function ReplaceAll(s: string, pat: string, rep: string): (r: string)
    requires pat != []
    ensures rep == pat ==> r == s
    ensures |pat| <= |rep| ==> |s| <= |r|
    decreases |s|
  {
    if |pat| <= |s| && s[..|pat|] == pat then rep + ReplaceAll(s[|pat|..], pat, rep)
    else if s == [] then []
    else [s[0]] + ReplaceAll(s[1..], pat, rep)
  }

  /** `pat` occurs in `s` starting at position `i`. */
  predicate OccursAt(s: string, pat: string, i: nat) {
    i + |pat| <= |s| && s[i..i + |pat|] == pat
  }

  /** A pattern absent from a string is absent from its tail. */
  lemma AbsentFromTail(s: string, pat: string)
    requires s != [] && forall i :: 0 <= i <= |s| ==> !OccursAt(s, pat, i)
    ensures forall i :: 0 <= i <= |s[1..]| ==> !OccursAt(s[1..], pat, i)
  {
    forall i | 0 <= i <= |s[1..]| ensures !OccursAt(s[1..], pat, i) {
      assert !OccursAt(s, pat, i + 1);
      if i + |pat| <= |s[1..]| { assert s[1..][i..i + |pat|] == s[i + 1..i + 1 + |pat|]; }
    }
  }

  /** A string in which `pat` does not occur is returned unchanged. */
  lemma {:induction false} ReplaceAllAbsent(s: string, pat: string, rep: string)
    requires pat != []
    requires forall i :: 0 <= i <= |s| ==> !OccursAt(s, pat, i)
    ensures ReplaceAll(s, pat, rep) == s
  {
    if s != [] {
      assert !OccursAt(s, pat, 0);
      AbsentFromTail(s, pat);
      ReplaceAllAbsent(s[1..], pat, rep);
    }
  }

  /** Output files end in this extension. */
  const XLSX: string := ".xlsx"

  /** What every `.xlsx` is replaced by to name the sample file. */
  const SAMPLE_XLSX: string := "_sample.xlsx"

  /** The sample file's path: `output_path.replace('.xlsx', '_sample.xlsx')`.
      It is never shorter than the path, and a path without `.xlsx` is kept. */
  function SamplePath(path: string): (r: string)
    ensures |path| <= |r|
    ensures (forall i :: 0 <= i <= |path| ==> !OccursAt(path, XLSX, i)) ==> r == path
  {
    if forall i :: 0 <= i <= |path| ==> !OccursAt(path, XLSX, i) then
      ReplaceAllAbsent(path, XLSX, SAMPLE_XLSX);
      ReplaceAll(path, XLSX, SAMPLE_XLSX)
    else
      ReplaceAll(path, XLSX, SAMPLE_XLSX)
  }

  /** Replacement scans from the left: when the first occurrence of `pat` in
      `a + pat + b` is the one right after `a`, the result is `a`, then
      `rep`, then `b` with its own occurrences replaced. */
  lemma {:induction false} ReplaceAllFirst(a: string, pat: string, rep: string, b: string)
    requires pat != []
    requires forall i :: 0 <= i < |a| ==> !OccursAt(a + pat + b, pat, i)
    ensures ReplaceAll(a + pat + b, pat, rep) == a + rep + ReplaceAll(b, pat, rep)
  {
    var s := a + pat + b;
    if a == [] {
      assert s == pat + b;
      assert s[..|pat|] == pat && s[|pat|..] == b;
    } else {
      assert !OccursAt(s, pat, 0);
      var s' := a[1..] + pat + b;
      assert s[1..] == s';
      forall i | 0 <= i < |a[1..]| ensures !OccursAt(s', pat, i) {
        assert !OccursAt(s, pat, i + 1);
        if i + |pat| <= |s'| {
          assert s'[i..i + |pat|] == s[i + 1..i + 1 + |pat|];
        }
      }
      ReplaceAllFirst(a[1..], pat, rep, b);
      assert [s[0]] + (a[1..] + rep + ReplaceAll(b, pat, rep)) == a + rep + ReplaceAll(b, pat, rep);
    }
  }

  /** `.xlsx` cannot overlap itself: in a name without `.xlsx` followed by
      `.xlsx`, no occurrence starts inside the name. */
  lemma XlsxFirstAfter(a: string, b: string)
    requires forall i :: 0 <= i <= |a| ==> !OccursAt(a, XLSX, i)
    ensures forall i :: 0 <= i < |a| ==> !OccursAt(a + XLSX + b, XLSX, i)
  {
    var s := a + XLSX + b;
    forall i | 0 <= i < |a| ensures !OccursAt(s, XLSX, i) {
      if i + |XLSX| <= |a| {
        assert !OccursAt(a, XLSX, i);
        assert s[i..i + |XLSX|] == a[i..i + |XLSX|];
      } else if i + |XLSX| <= |s| {
        var k := |a| - i;
        assert s[|a|] == '.' && s[i..i + |XLSX|][k] == '.';
        assert XLSX[1] != '.' && XLSX[2] != '.' && XLSX[3] != '.' && XLSX[4] != '.';
        assert 1 <= k <= 4;
      }
    }
  }

  /** Every `.xlsx` is replaced, from the left: the first one, after a part
      without `.xlsx`, becomes `_sample.xlsx` and the rest of the path is
      treated the same way. */
  lemma SamplePathFirst(a: string, b: string)
    requires forall i :: 0 <= i <= |a| ==> !OccursAt(a, XLSX, i)
    ensures SamplePath(a + XLSX + b) == a + SAMPLE_XLSX + SamplePath(b)
  {
    XlsxFirstAfter(a, b);
    ReplaceAllFirst(a, XLSX, SAMPLE_XLSX, b);
  }

  /** A name ending in `.xlsx` and holding no other `.xlsx` gets `_sample`
      inserted before its extension: `out.xlsx` becomes `out_sample.xlsx`. */
  lemma SamplePathOfXlsx(stem: string)
    requires forall i :: 0 <= i <= |stem| ==> !OccursAt(stem, XLSX, i)
    ensures SamplePath(stem + XLSX) == stem + SAMPLE_XLSX
  {
    SamplePathFirst(stem, []);
    assert stem + XLSX + [] == stem + XLSX;
    assert SamplePath([]) == [];
  }

  /** Both extensions of `a.xlsx.xlsx` are replaced, not just the last one. */
  lemma SamplePathOfDoubleXlsx(stem: string)
    requires forall i :: 0 <= i <= |stem| ==> !OccursAt(stem, XLSX, i)
    ensures SamplePath(stem + XLSX + XLSX) == stem + SAMPLE_XLSX + SAMPLE_XLSX
  {
    SamplePathFirst(stem, XLSX);
    SamplePathOfXlsx([]);
    assert [] + XLSX == XLSX;
  }
}
