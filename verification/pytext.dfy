/**
 * The few Python string operations the two scripts rely on, written out:
 * `str.isspace`, `str.split()` with no separator, `str.splitlines()`,
 * `int(token)` on a base-10 token and `str(n)` on an integer.
 */
module PyText {
  import opened Optional

  // ---------------------------------------------------------------------
  // Character classes
  // ---------------------------------------------------------------------

  /** The characters for which Python's `str.isspace()` holds. */
  predicate IsSpace(c: char) {
    || ('\t' <= c <= '\r')
    || ('\U{1C}' <= c <= ' ')
    || c == '\U{85}' || c == '\U{A0}' || c == '\U{1680}'
    || ('\U{2000}' <= c <= '\U{200A}')
    || c == '\U{2028}' || c == '\U{2029}' || c == '\U{202F}'
    || c == '\U{205F}' || c == '\U{3000}'
  }

  /** The line boundaries recognised by Python's `str.splitlines()`
    * (`"\r\n"` is one boundary made of two of them). */
  predicate IsLineBreak(c: char) {
    || ('\n' <= c <= '\r')
    || ('\U{1C}' <= c <= '\U{1E}')
    || c == '\U{85}' || c == '\U{2028}' || c == '\U{2029}'
  }

  predicate IsDigit(c: char) {
    '0' <= c <= '9'
  }

  predicate NoSpace(s: string) {
    forall k :: 0 <= k < |s| ==> !IsSpace(s[k])
  }

  predicate NoLineBreak(s: string) {
    forall k :: 0 <= k < |s| ==> !IsLineBreak(s[k])
  }

  /** `pat` occurs in `s` starting at index `i`. */
  predicate OccursAt(s: string, pat: string, i: nat) {
    i + |pat| <= |s| && s[i..i + |pat|] == pat
  }

  predicate StartsWith(s: string, prefix: string) {
    OccursAt(s, prefix, 0)
  }

  // ---------------------------------------------------------------------
  // str.splitlines()
  // ---------------------------------------------------------------------

  /** The first index at or after `i` that holds a line boundary, or `|s|`. */
  function LineBreakFrom(s: string, i: nat): (j: nat)
    requires i <= |s|
    ensures i <= j <= |s|
    ensures forall k :: i <= k < j ==> !IsLineBreak(s[k])
    ensures j < |s| ==> IsLineBreak(s[j])
    decreases |s| - i
  {
    if i == |s| || IsLineBreak(s[i]) then i else LineBreakFrom(s, i + 1)
  }

  /** How many characters the boundary at `j` takes: two for `"\r\n"`. */
  function BreakWidth(s: string, j: nat): nat
    requires j < |s|
  {
    if s[j] == '\r' && j + 1 < |s| && s[j + 1] == '\n' then 2 else 1
  }

  /** Python's `s.splitlines()`: the lines of `s` without their boundaries;
    * a final boundary does not open an empty last line. */
  function SplitLines(s: string): (lines: seq<string>)
    ensures forall k :: 0 <= k < |lines| ==> NoLineBreak(lines[k])
    ensures lines == [] <==> s == []
    decreases |s|
  {
    if s == [] then []
    else
      var j := LineBreakFrom(s, 0);
      if j == |s| then [s]
      else [s[..j]] + SplitLines(s[j + BreakWidth(s, j)..])
  }

  /** A line followed by `"\n"` is split off as the first line. */
  lemma SplitLinesCons(line: string, rest: string)
    requires NoLineBreak(line)
    ensures SplitLines(line + "\n" + rest) == [line] + SplitLines(rest)
  {
    var s := line + "\n" + rest;
    assert s[|line|] == '\n';
    LineBreakAt(s, 0, |line|);
    assert s[..|line|] == line;
    assert s[|line| + 1..] == rest;
  }

  /** Lines each followed by `"\n"`, then `rest`. */
  function LinesThen(ls: seq<string>, rest: string): string {
    if ls == [] then rest else ls[0] + "\n" + LinesThen(ls[1..], rest)
  }

  /** `splitlines()` gives back lines joined by `"\n"`. */
  lemma {:induction false} SplitLinesThen(ls: seq<string>, rest: string)
    requires forall k :: 0 <= k < |ls| ==> NoLineBreak(ls[k])
    ensures SplitLines(LinesThen(ls, rest)) == ls + SplitLines(rest)
  {
    if ls != [] {
      SplitLinesThen(ls[1..], rest);
      SplitLinesConsThen(ls[0], LinesThen(ls[1..], rest), ls[1..], SplitLines(rest));
      assert [ls[0]] + ls[1..] == ls;
    }
  }

  lemma SplitLinesConsThen(line: string, rest: string, front: seq<string>, back: seq<string>)
    requires NoLineBreak(line)
    requires SplitLines(rest) == front + back
    ensures SplitLines(line + "\n" + rest) == [line] + front + back
  {
    SplitLinesCons(line, rest);
  }

  /** `LineBreakFrom` stops exactly at the first boundary. */
  lemma LineBreakAt(s: string, i: nat, j: nat)
    requires i <= j < |s| && IsLineBreak(s[j])
    requires forall k :: i <= k < j ==> !IsLineBreak(s[k])
    ensures LineBreakFrom(s, i) == j
    decreases j - i
  {
    if i < j {
      LineBreakAt(s, i + 1, j);
    }
  }

  // ---------------------------------------------------------------------
  // str.split() with no separator
  // ---------------------------------------------------------------------

  /** The first index at or after `i` that holds white space, or `|s|`. */
  function SpaceFrom(s: string, i: nat): (j: nat)
    requires i <= |s|
    ensures i <= j <= |s|
    ensures forall k :: i <= k < j ==> !IsSpace(s[k])
    ensures j < |s| ==> IsSpace(s[j])
    decreases |s| - i
  {
    if i == |s| || IsSpace(s[i]) then i else SpaceFrom(s, i + 1)
  }

  /** The first index at or after `i` that does not hold white space, or `|s|`. */
  function NonSpaceFrom(s: string, i: nat): (j: nat)
    requires i <= |s|
    ensures i <= j <= |s|
    ensures forall k :: i <= k < j ==> IsSpace(s[k])
    ensures j < |s| ==> !IsSpace(s[j])
    decreases |s| - i
  {
    if i == |s| || !IsSpace(s[i]) then i else NonSpaceFrom(s, i + 1)
  }

  /** Python's `s.split()`: the maximal runs of non-white-space characters. */
  function Fields(s: string): (fs: seq<string>)
    ensures forall k :: 0 <= k < |fs| ==> fs[k] != [] && NoSpace(fs[k])
    decreases |s|
  {
    if s == [] then []
    else if IsSpace(s[0]) then Fields(s[1..])
    else
      var j := SpaceFrom(s, 0);
      [s[..j]] + Fields(s[j..])
  }

  /** A word on its own splits into itself. */
  lemma FieldsOfWord(w: string)
    requires w != [] && NoSpace(w)
    ensures Fields(w) == [w]
  {
    SpaceFromNoSpace(w, 0);
    assert w[..|w|] == w;
  }

  lemma SpaceFromNoSpace(s: string, i: nat)
    requires i <= |s| && forall k :: i <= k < |s| ==> !IsSpace(s[k])
    ensures SpaceFrom(s, i) == |s|
    decreases |s| - i
  {
    if i < |s| {
      SpaceFromNoSpace(s, i + 1);
    }
  }

  lemma SpaceAt(s: string, i: nat, j: nat)
    requires i <= j < |s| && IsSpace(s[j])
    requires forall k :: i <= k < j ==> !IsSpace(s[k])
    ensures SpaceFrom(s, i) == j
    decreases j - i
  {
    if i < j {
      SpaceAt(s, i + 1, j);
    }
  }

  /** A word followed by a white-space character is split off as the first field. */
  lemma FieldsCons(w: string, sep: char, rest: string)
    requires w != [] && NoSpace(w) && IsSpace(sep)
    ensures Fields(w + [sep] + rest) == [w] + Fields(rest)
  {
    var s := w + [sep] + rest;
    assert s[|w|] == sep;
    SpaceAt(s, 0, |w|);
    assert s[..|w|] == w;
    assert s[|w|..][1..] == rest;
  }

  /** A word followed by text that starts with white space is split off as
    * the first field. */
  lemma FieldsAfterWord(w: string, rest: string)
    requires w != [] && NoSpace(w) && rest != [] && IsSpace(rest[0])
    ensures Fields(w + rest) == [w] + Fields(rest)
  {
    var s := w + rest;
    assert s[|w|] == rest[0];
    SpaceAt(s, 0, |w|);
    assert s[..|w|] == w;
    assert s[|w|..] == rest;
  }

  /** `n` blanks. */
  function Blanks(n: nat): (b: string)
    ensures |b| == n && forall k :: 0 <= k < n ==> b[k] == ' '
  {
    if n == 0 then "" else " " + Blanks(n - 1)
  }

  /** Leading blanks do not change the fields. */
  lemma {:induction false} FieldsSkipsBlanks(n: nat, rest: string)
    ensures Fields(Blanks(n) + rest) == Fields(rest)
  {
    if n > 0 {
      var s := Blanks(n) + rest;
      assert s[0] == ' ' && IsSpace(s[0]);
      assert s[1..] == Blanks(n - 1) + rest;
      assert Fields(s) == Fields(s[1..]);
      FieldsSkipsBlanks(n - 1, rest);
    } else {
      assert Blanks(n) + rest == rest;
    }
  }

  lemma NoSpaceNoLineBreak(s: string)
    requires NoSpace(s)
    ensures NoLineBreak(s)
  {
  }

  lemma NoLineBreakConcat(a: string, b: string)
    requires NoLineBreak(a) && NoLineBreak(b)
    ensures NoLineBreak(a + b)
  {
    forall k | 0 <= k < |a + b| ensures !IsLineBreak((a + b)[k]) {
      if k < |a| {
        assert (a + b)[k] == a[k];
      } else {
        assert (a + b)[k] == b[k - |a|];
      }
    }
  }

  /** Words joined with single blanks. */
  function JoinWords(ws: seq<string>): string {
    if ws == [] then ""
    else if |ws| == 1 then ws[0]
    else ws[0] + " " + JoinWords(ws[1..])
  }

  /** `split()` undoes a join of non-empty, blank-free words. */
  lemma {:induction false} FieldsJoinWords(ws: seq<string>)
    requires forall k :: 0 <= k < |ws| ==> ws[k] != [] && NoSpace(ws[k])
    ensures Fields(JoinWords(ws)) == ws
    decreases |ws|
  {
    if ws == [] {
    } else if |ws| == 1 {
      FieldsOfWord(ws[0]);
    } else {
      FieldsJoinWords(ws[1..]);
      FieldsCons(ws[0], ' ', JoinWords(ws[1..]));
    }
  }

  /** `split()` also undoes a join by `"\n"` with a final `"\n"`. */
  lemma {:induction false} FieldsLinesThen(ws: seq<string>)
    requires forall k :: 0 <= k < |ws| ==> ws[k] != [] && NoSpace(ws[k])
    ensures Fields(LinesThen(ws, "")) == ws
    decreases |ws|
  {
    if ws != [] {
      FieldsLinesThen(ws[1..]);
      FieldsCons(ws[0], '\n', LinesThen(ws[1..], ""));
      assert [ws[0]] + ws[1..] == ws;
    }
  }

  // ---------------------------------------------------------------------
  // int(token) and str(n)
  // ---------------------------------------------------------------------

  /** The body of a base-10 literal as `int()` accepts it: ASCII digits,
    * with single underscores allowed between two digits. */
  predicate IsDigitGroup(s: string) {
    && |s| > 0
    && IsDigit(s[0])
    && IsDigit(s[|s| - 1])
    && (forall k :: 0 <= k < |s| ==> IsDigit(s[k]) || s[k] == '_')
    && (forall k :: 0 <= k < |s| - 1 ==> s[k] == '_' ==> s[k + 1] != '_')
  }

  /** The number written by digits and underscores (underscores are skipped). */
  function DecimalValue(s: string): nat
    requires forall k :: 0 <= k < |s| ==> IsDigit(s[k]) || s[k] == '_'
  {
    if s == [] then 0
    else
      var last := s[|s| - 1];
      assert IsDigit(last) || last == '_';
      var prefix := DecimalValue(s[..|s| - 1]);
      if last == '_' then prefix else prefix * 10 + (last as int - '0' as int)
  }

  /** Python's `int(token)` on a token holding no white space:
    * `None` where Python raises `ValueError`. */
  function ParseInt(tok: string): (r: Option<int>)
    ensures r.Some? <==>
      || IsDigitGroup(tok)
      || (|tok| > 0 && (tok[0] == '+' || tok[0] == '-') && IsDigitGroup(tok[1..]))
    ensures r.Some? ==> |tok| > 0 && IsDigit(tok[|tok| - 1])
    ensures r.Some? ==> IsDigit(tok[0]) || tok[0] == '+' || tok[0] == '-'
    ensures r.Some? ==> forall k :: 0 < k < |tok| ==> IsDigit(tok[k]) || tok[k] == '_'
    ensures r.Some? && r.value < 0 ==> tok[0] == '-'
  {
    if |tok| > 0 && (tok[0] == '+' || tok[0] == '-') then
      var body := tok[1..];
      if IsDigitGroup(body) then
        Some(if tok[0] == '-' then -(DecimalValue(body) as int) else DecimalValue(body))
      else None
    else if IsDigitGroup(tok) then Some(DecimalValue(tok))
    else None
  }

  function DigitChar(d: nat): (c: char)
    requires d < 10
    ensures IsDigit(c) && c as int - '0' as int == d
  {
    ('0' as int + d) as char
  }

  /** Python's `str(n)` for `n >= 0`: decimal digits, no leading zero. */
  function NatToString(n: nat): (s: string)
    ensures |s| > 0 && forall k :: 0 <= k < |s| ==> IsDigit(s[k])
    ensures s[0] == '0' ==> n == 0
  {
    if n < 10 then [DigitChar(n)] else NatToString(n / 10) + [DigitChar(n % 10)]
  }

  /** Python's `str(n)` for any integer. */
  function IntToString(n: int): (s: string)
    ensures |s| > (if n < 0 then 1 else 0)
    ensures s[0] == '-' <==> n < 0
    ensures forall k :: (if n < 0 then 1 else 0) <= k < |s| ==> IsDigit(s[k])
    ensures n != 0 ==> s[if n < 0 then 1 else 0] != '0'
  {
    if n < 0 then "-" + NatToString(-n) else NatToString(n)
  }

  lemma {:induction false} DecimalValueOfNat(n: nat)
    ensures DecimalValue(NatToString(n)) == n
  {
    var s := NatToString(n);
    if n >= 10 {
      DecimalValueOfNat(n / 10);
      assert s[..|s| - 1] == NatToString(n / 10);
    }
  }

  /** `int(str(n)) == n`: what `str` writes, `int` reads back. */
  lemma ParseIntRoundTrip(n: int)
    ensures ParseInt(IntToString(n)) == Some(n)
  {
    var m: nat := if n < 0 then -n else n;
    DecimalValueOfNat(m);
    var digits := NatToString(m);
    assert IsDigitGroup(digits);
    if n < 0 {
      assert IntToString(n)[1..] == digits;
    }
  }

  /** `str` on integers is injective. */
  lemma IntToStringInjective(a: int, b: int)
    requires IntToString(a) == IntToString(b)
    ensures a == b
  {
    ParseIntRoundTrip(a);
    ParseIntRoundTrip(b);
  }

  /** `str(n)` is a single field. */
  lemma IntToStringWord(n: int)
    ensures IntToString(n) != [] && NoSpace(IntToString(n))
  {
    var s := IntToString(n);
    forall k | 0 <= k < |s| ensures !IsSpace(s[k]) {
      if n < 0 && k > 0 {
        assert s[k] == NatToString(-n)[k - 1];
      }
    }
  }
}
