/**
 * The source splice of patch_pve.py: it inserts a fixed block of Perl into
 * the status module of the hypervisor unless that module already carries the
 * block's marker. The block goes after the line that assigns `$d->{memhost}`
 * to `$d->{mem}`, or, failing that, at the start of the line that assigns
 * `$info` to `$d->{ballooninfo}`.
 *
 * The two regular expressions of the script are written out as the matchers
 * they amount to (an assignment `lhs \s* = \s* rhs`), next to declarative
 * statements of what a match is.
 */
module Patcher {
  import opened Optional
  import opened PyText
  import Monitor

  /** The text whose presence means "already patched". */
  const MARKER := "proxmox-rmem"

  /** The inserted Perl block, character for character (it begins and ends
    * with a line break): a comment line carrying the marker, then a test for
    * the override file and a read of its first line, which replaces the
    * reported memory when it is all digits. It is written in pieces so that
    * the marker and the file name it reads can be referred to. */
  const PATCH_CODE := PATCH_OPEN + MARKER + PATCH_TEST + PERL_OVERRIDE_PATH + PATCH_BODY

  const PATCH_OPEN := "\n        # "
  const PATCH_TEST := @": Override memory from external file if available
        if (-f """
  /** The file the block reads, with Perl's `$vmid` interpolated. */
  const PERL_OVERRIDE_PATH := "/tmp/pve-vm-$vmid-mem-override"
  const PATCH_BODY := @""") {
            if (open(my $fh, '<', ""/tmp/pve-vm-$vmid-mem-override"")) {
                my $override_mem = <$fh>;
                chomp $override_mem;
                if ($override_mem && $override_mem =~ /^\d+$/) {
                    $d->{mem} = $override_mem;
                }
                close($fh);
            }
        }
"

  const MEM_LHS := "$d->{mem}"
  const MEMHOST_RHS := "$d->{memhost};"
  const BALLOON_LHS := "$d->{ballooninfo}"
  const INFO_RHS := "$info;"
  const BALLOON_LITERAL := "$d->{ballooninfo} = $info;"

  datatype PatchResult =
    | AlreadyPatched
    | NoInsertionPoint
    | Patched(newContent: string)

  // ---------------------------------------------------------------------
  // Searching
  // ---------------------------------------------------------------------

  /** The first `k` in `[from, n)` with `p(k)`, if there is one. */
  function FindFirst(n: nat, p: nat -> bool, from: nat): (r: Option<nat>)
    requires from <= n
    ensures r.Some? ==> from <= r.value < n && p(r.value)
    ensures r.Some? ==> forall k :: from <= k < r.value ==> !p(k)
    ensures r.None? ==> forall k :: from <= k < n ==> !p(k)
    decreases n - from
  {
    if from == n then None
    else if p(from) then Some(from)
    else FindFirst(n, p, from + 1)
  }

  /** Python's `s.find(pat)`: the first index where `pat` occurs. */
  function FindLiteral(s: string, pat: string): (r: Option<nat>)
    ensures r.Some? ==> OccursAt(s, pat, r.value)
    ensures r.Some? ==> forall k: nat :: k < r.value ==> !OccursAt(s, pat, k)
    ensures r.None? ==> forall k: nat :: !OccursAt(s, pat, k)
  {
    var p := (i: nat) => OccursAt(s, pat, i);
    var r := FindFirst(|s| + 1, p, 0);
    assert forall k: nat :: p(k) == OccursAt(s, pat, k);
    r
  }

  /** Python's `pat in s`. */
  predicate Contains(s: string, pat: string)
    ensures Contains(s, pat) <==> exists k: nat :: OccursAt(s, pat, k)
  {
    FindLiteral(s, pat).Some?
  }

  /** The first index at or after `i` that holds `'\n'`, or `|s|`: where the
    * regular expression `[^\n]*` stops. */
  function NewlineFrom(s: string, i: nat): (j: nat)
    requires i <= |s|
    ensures i <= j <= |s|
    ensures forall k :: i <= k < j ==> s[k] != '\n'
    ensures j < |s| ==> s[j] == '\n'
    decreases |s| - i
  {
    if i == |s| || s[i] == '\n' then i else NewlineFrom(s, i + 1)
  }

  /** `s.rfind('\n', 0, idx) + 1`: the start of the line holding index `idx`. */
  function LineStart(s: string, idx: nat): (r: nat)
    requires idx <= |s|
    ensures r <= idx
    ensures r == 0 || s[r - 1] == '\n'
    ensures forall k :: r <= k < idx ==> s[k] != '\n'
  {
    if idx == 0 then 0
    else if s[idx - 1] == '\n' then idx
    else LineStart(s, idx - 1)
  }

  // ---------------------------------------------------------------------
  // The two regular expressions
  // ---------------------------------------------------------------------

  /** Where a match of `lhs\s*=\s*rhs` that starts at `i` ends, if one does.
    * White space runs are greedy and are followed by a character that is not
    * white space (`=`, or the first character of `rhs`), so there is at most
    * one match at `i`. */
  function AssignEnd(s: string, i: nat, lhs: string, rhs: string): (r: Option<nat>)
    ensures r.Some? ==> i + |lhs| < r.value <= |s|
  {
    if !OccursAt(s, lhs, i) then None
    else
      var a := NonSpaceFrom(s, i + |lhs|);
      if a < |s| && s[a] == '=' then
        var b := NonSpaceFrom(s, a + 1);
        if OccursAt(s, rhs, b) then Some(b + |rhs|) else None
      else None
  }

  /** `s[i..]` starts with `lhs`, white space up to `a`, `=` at `a`, white
    * space up to `b`, then `rhs`. */
  predicate AssignShape(s: string, i: nat, a: nat, b: nat, lhs: string, rhs: string) {
    && OccursAt(s, lhs, i)
    && i + |lhs| <= a < b <= |s|
    && (forall k :: i + |lhs| <= k < a ==> IsSpace(s[k]))
    && s[a] == '='
    && (forall k :: a < k < b ==> IsSpace(s[k]))
    && OccursAt(s, rhs, b)
  }

  /** The preferred pattern `\$d->\{mem\}\s*=\s*\$d->\{memhost\};[^\n]*`:
    * where its match at `i` ends (the end of that line), if it matches. */
  function PreferredEnd(s: string, i: nat): Option<nat> {
    match AssignEnd(s, i, MEM_LHS, MEMHOST_RHS)
    case None => None
    case Some(e) => Some(NewlineFrom(s, e))
  }

  /** The fallback pattern `\$d->\{ballooninfo\}\s*=\s*\$info;` matches at `i`. */
  predicate BalloonAt(s: string, i: nat) {
    AssignEnd(s, i, BALLOON_LHS, INFO_RHS).Some?
  }

  /** `re.search` with the preferred pattern: its leftmost match. */
  function FirstPreferred(s: string): (r: Option<nat>)
    ensures r.Some? ==> PreferredEnd(s, r.value).Some?
    ensures r.Some? ==> forall k: nat :: k < r.value ==> PreferredEnd(s, k).None?
    ensures r.None? ==> forall k: nat :: PreferredEnd(s, k).None?
  {
    var p := (i: nat) => PreferredEnd(s, i).Some?;
    var r := FindFirst(|s| + 1, p, 0);
    assert forall k: nat :: p(k) == PreferredEnd(s, k).Some?;
    r
  }

  /** `re.search` with the fallback pattern: its leftmost match. */
  function FirstBalloon(s: string): (r: Option<nat>)
    ensures r.Some? ==> BalloonAt(s, r.value)
    ensures r.Some? ==> forall k: nat :: k < r.value ==> !BalloonAt(s, k)
    ensures r.None? ==> forall k: nat :: !BalloonAt(s, k)
  {
    var p := (i: nat) => BalloonAt(s, i);
    var r := FindFirst(|s| + 1, p, 0);
    assert forall k: nat :: p(k) == BalloonAt(s, k);
    r
  }

  // ---------------------------------------------------------------------
  // The patch
  // ---------------------------------------------------------------------

  /** Where the ballooninfo assignment is found: the literal first, then the
    * white-space tolerant pattern (`re.search`: the leftmost match). */
  function BalloonIndex(s: string): (r: Option<nat>)
    ensures r.Some? ==> r.value < |s| && BalloonAt(s, r.value)
    ensures r.None? <==> forall k: nat :: !BalloonAt(s, k)
  {
    match FindLiteral(s, BALLOON_LITERAL)
    case Some(i) =>
      LiteralIsBalloonMatch(s, i);
      Some(i)
    case None => FirstBalloon(s)
  }

  /** `insert_pos`: the end of the first match of the preferred pattern, or
    * else the start of the line holding the ballooninfo assignment. */
  function InsertionPoint(s: string): (r: Option<nat>)
    ensures r.Some? ==> r.value <= |s|
  {
    match FirstPreferred(s)
    case Some(i) => PreferredEnd(s, i)
    case None =>
      match BalloonIndex(s)
      case None => None
      case Some(idx) => Some(LineStart(s, idx))
  }

  /** `main` without its file and console I/O. */
  function Patch(content: string): (r: PatchResult)
    ensures r == AlreadyPatched <==> Contains(content, MARKER)
    ensures r == NoInsertionPoint <==> !Contains(content, MARKER) && InsertionPoint(content).None?
    ensures r.Patched? ==> InsertionPoint(content).Some? && |r.newContent| == |content| + |PATCH_CODE|
  {
    if Contains(content, MARKER) then AlreadyPatched
    else
      match InsertionPoint(content)
      case None => NoInsertionPoint
      case Some(p) => Patched(content[..p] + PATCH_CODE + content[p..])
  }

  // ---------------------------------------------------------------------
  // Properties
  // ---------------------------------------------------------------------

  /** `NonSpaceFrom` stops at the first character that is not white space. */
  lemma {:induction false} NonSpaceAt(s: string, j: nat, a: nat)
    requires j <= a < |s| && !IsSpace(s[a])
    requires forall k :: j <= k < a ==> IsSpace(s[k])
    ensures NonSpaceFrom(s, j) == a
    decreases a - j
  {
    if j < a {
      NonSpaceAt(s, j + 1, a);
    }
  }

  /** Every match the matcher reports has the shape `lhs\s*=\s*rhs`. */
  lemma AssignEndSound(s: string, i: nat, lhs: string, rhs: string)
    requires AssignEnd(s, i, lhs, rhs).Some?
    ensures exists a: nat, b: nat ::
      AssignShape(s, i, a, b, lhs, rhs) && AssignEnd(s, i, lhs, rhs).value == b + |rhs|
  {
    var a := NonSpaceFrom(s, i + |lhs|);
    var b := NonSpaceFrom(s, a + 1);
    assert AssignShape(s, i, a, b, lhs, rhs);
  }

  /** Every text of the shape `lhs\s*=\s*rhs` is reported, with the end the
    * shape gives, when `rhs` does not start with white space. */
  lemma AssignEndComplete(s: string, i: nat, a: nat, b: nat, lhs: string, rhs: string)
    requires rhs != [] && !IsSpace(rhs[0])
    requires AssignShape(s, i, a, b, lhs, rhs)
    ensures AssignEnd(s, i, lhs, rhs) == Some(b + |rhs|)
  {
    assert !IsSpace('=');
    NonSpaceAt(s, i + |lhs|, a);
    assert s[b..b + |rhs|] == rhs;
    assert s[b] == rhs[0];
    NonSpaceAt(s, a + 1, b);
  }

  /** The preferred insertion point closes the memhost assignment's line: it
    * is a `'\n'` or the end of the content, never inside a line. */
  lemma PreferredEndOfLine(s: string, i: nat)
    requires PreferredEnd(s, i).Some?
    ensures var e := PreferredEnd(s, i).value;
      i < e <= |s| && (e == |s| || s[e] == '\n')
    ensures exists a: nat, b: nat ::
      (AssignShape(s, i, a, b, MEM_LHS, MEMHOST_RHS)
       && (forall k :: b + |MEMHOST_RHS| <= k < PreferredEnd(s, i).value ==> s[k] != '\n'))
  {
    AssignEndSound(s, i, MEM_LHS, MEMHOST_RHS);
  }

  /** When the memhost assignment occurs, the block goes at the end of the
    * line of its leftmost occurrence. */
  lemma InsertAfterMemhost(s: string, i: nat)
    requires PreferredEnd(s, i).Some?
    requires forall j: nat :: j < i ==> PreferredEnd(s, j).None?
    ensures InsertionPoint(s) == PreferredEnd(s, i)
  {
    assert FirstPreferred(s) == Some(i);
  }

  /** The literal ballooninfo assignment is also a match of the tolerant pattern. */
  lemma LiteralIsBalloonMatch(s: string, i: nat)
    requires OccursAt(s, BALLOON_LITERAL, i)
    ensures BalloonAt(s, i)
  {
    var n := |BALLOON_LHS|;
    assert s[i..i + |BALLOON_LITERAL|] == BALLOON_LITERAL;
    assert s[i..i + n] == BALLOON_LITERAL[..n] == BALLOON_LHS;
    assert s[i + n] == ' ' && s[i + n + 1] == '=' && s[i + n + 2] == ' ';
    assert s[i + n + 3..i + n + 3 + |INFO_RHS|] == BALLOON_LITERAL[n + 3..] == INFO_RHS;
    assert AssignShape(s, i, i + n + 1, i + n + 3, BALLOON_LHS, INFO_RHS);
    assert !IsSpace(INFO_RHS[0]);
    AssignEndComplete(s, i, i + n + 1, i + n + 3, BALLOON_LHS, INFO_RHS);
  }

  /** Without the memhost assignment, the block goes at the start of the line
    * holding the ballooninfo assignment, and there is an insertion point
    * exactly when the tolerant pattern matches somewhere. */
  lemma InsertAtBalloonLine(s: string)
    requires forall j: nat :: PreferredEnd(s, j).None?
    ensures InsertionPoint(s).Some? <==> exists i: nat :: BalloonAt(s, i)
    ensures InsertionPoint(s).Some? ==>
      var p := InsertionPoint(s).value;
      var idx := BalloonIndex(s).value;
      && (p == 0 || s[p - 1] == '\n')
      && p <= idx && BalloonAt(s, idx)
      && (forall k :: p <= k < idx ==> s[k] != '\n')
  {
    assert FirstPreferred(s).None?;
  }

  /** The ballooninfo line is found by its literal form first: the literal's
    * first occurrence wins over an earlier match of the tolerant pattern. */
  lemma LiteralFirst(s: string, i: nat)
    requires OccursAt(s, BALLOON_LITERAL, i)
    requires forall j: nat :: j < i ==> !OccursAt(s, BALLOON_LITERAL, j)
    ensures BalloonIndex(s) == Some(i)
  {
    assert FindLiteral(s, BALLOON_LITERAL) == Some(i);
  }

  /** Without the literal form, the leftmost tolerant match is used. */
  lemma TolerantFallback(s: string, i: nat)
    requires forall j: nat :: !OccursAt(s, BALLOON_LITERAL, j)
    requires BalloonAt(s, i)
    requires forall j: nat :: j < i ==> !BalloonAt(s, j)
    ensures BalloonIndex(s) == Some(i)
  {
    assert FirstBalloon(s) == Some(i);
  }

  /** `'proxmox-rmem' in content` decides the "already patched" branch. */
  lemma AlreadyPatchedIffMarker(content: string)
    ensures Patch(content) == AlreadyPatched <==> exists i: nat :: OccursAt(content, MARKER, i)
  {
  }

  /** No insertion point is an error, and happens exactly when neither the
    * marker nor either pattern occurs. */
  lemma NoInsertionPointIff(content: string)
    ensures Patch(content) == NoInsertionPoint <==>
      && (forall i: nat :: !OccursAt(content, MARKER, i))
      && (forall i: nat :: PreferredEnd(content, i).None?)
      && (forall i: nat :: !BalloonAt(content, i))
  {
    if forall i: nat :: PreferredEnd(content, i).None? {
      InsertAtBalloonLine(content);
    } else {
      assert FirstPreferred(content).Some?;
    }
  }

  /** Splicing `code` into `content` at `p`. */
  lemma SpliceParts(content: string, p: nat, code: string)
    requires p <= |content|
    ensures
      var n := content[..p] + code + content[p..];
      && |n| == |content| + |code|
      && n[p..p + |code|] == code
      && n[..p] + n[p + |code|..] == content
  {
    var n := content[..p] + code + content[p..];
    assert n[..p] == content[..p];
    assert n[p..p + |code|] == code;
    assert n[p + |code|..] == content[p..];
    assert content[..p] + content[p..] == content;
  }

  /** The splice: the new content is the old one with `PATCH_CODE` inserted at
    * the insertion point, so it is longer by exactly `|PATCH_CODE|`, holds the
    * block at that point, and cutting the block out gives back the original. */
  lemma PatchIsSplice(content: string)
    requires Patch(content).Patched?
    ensures InsertionPoint(content).Some?
    ensures
      var p := InsertionPoint(content).value;
      var n := Patch(content).newContent;
      && |n| == |content| + |PATCH_CODE|
      && n[p..p + |PATCH_CODE|] == PATCH_CODE
      && n[..p] + n[p + |PATCH_CODE|..] == content
  {
    SpliceParts(content, InsertionPoint(content).value, PATCH_CODE);
  }

  /** A text ending in `pat` holds it at its end. */
  lemma OccursAtEnd(before: string, pat: string)
    ensures OccursAt(before + pat, pat, |before|)
  {
    assert (before + pat)[|before|..] == pat;
  }

  /** An occurrence stays one, shifted, when text is added on either side. */
  lemma OccursWithin(before: string, s: string, after: string, pat: string, i: nat)
    requires OccursAt(s, pat, i)
    ensures OccursAt(before + s + after, pat, |before| + i)
  {
    var n := before + s + after;
    assert n[|before|..|before| + |s|] == s;
    assert n[|before| + i..|before| + i + |pat|] == s[i..i + |pat|];
  }

  /** `PATCH_CODE` carries the marker on its comment line. */
  lemma MarkerInPatchCode()
    ensures OccursAt(PATCH_CODE, MARKER, |PATCH_OPEN|)
  {
    OccursAtEnd(PATCH_OPEN, MARKER);
    OccursWithin([], PATCH_OPEN + MARKER, PATCH_TEST, MARKER, |PATCH_OPEN|);
    OccursWithin([], PATCH_OPEN + MARKER + PATCH_TEST, PERL_OVERRIDE_PATH, MARKER, |PATCH_OPEN|);
    OccursWithin([], PATCH_OPEN + MARKER + PATCH_TEST + PERL_OVERRIDE_PATH, PATCH_BODY, MARKER, |PATCH_OPEN|);
  }

  /** Any text with `PATCH_CODE` spliced in carries the marker. */
  lemma SpliceCarriesMarker(before: string, after: string)
    ensures OccursAt(before + PATCH_CODE + after, MARKER, |before| + |PATCH_OPEN|)
  {
    MarkerInPatchCode();
    OccursWithin(before, PATCH_CODE, after, MARKER, |PATCH_OPEN|);
  }

  lemma PerlPathIsOverridePath()
    ensures PERL_OVERRIDE_PATH == Monitor.OverridePath(Monitor.VStr("$vmid"))
  {
  }

  /** The block reads the file the monitor writes: its file name, with
    * `$vmid` standing for the interpolated id, is `OverridePath` of that id. */
  lemma BlockReadsOverrideFile()
    ensures var at := |PATCH_OPEN + MARKER + PATCH_TEST|;
      OccursAt(PATCH_CODE, PERL_OVERRIDE_PATH, at)
    ensures PERL_OVERRIDE_PATH == Monitor.OverridePath(Monitor.VStr("$vmid"))
  {
    PerlPathIsOverridePath();
    var front := PATCH_OPEN + MARKER + PATCH_TEST;
    OccursAtEnd(front, PERL_OVERRIDE_PATH);
    OccursWithin([], front + PERL_OVERRIDE_PATH, PATCH_BODY, PERL_OVERRIDE_PATH, |front|);
  }

  /** Idempotence: patching patched content is the "already patched" no-op. */
  lemma PatchIdempotent(content: string)
    requires Patch(content).Patched?
    ensures Patch(Patch(content).newContent) == AlreadyPatched
  {
    var p := InsertionPoint(content).value;
    SpliceCarriesMarker(content[..p], content[p..]);
    AlreadyPatchedIffMarker(Patch(content).newContent);
  }
}
