/**
 * `parse_linux_meminfo` of proxmox-rmem.py: the used-memory figure of a Linux
 * guest, from the text of its `/proc/meminfo`.
 */
module Meminfo {
  import opened Optional
  import opened PyText

  const MEM_TOTAL := "MemTotal:"
  const MEM_AVAILABLE := "MemAvailable:"

  /** How a call of the parser ends: it raises (a matching line whose second
    * field is missing or not an integer), or it returns `None` or a byte count. */
  datatype Outcome = Raised | Returned(bytes: Option<int>)

  /** `int(line.split()[1])`: `None` where that raises. */
  function SecondField(line: string): Option<int> {
    var fs := Fields(line);
    if |fs| < 2 then None else ParseInt(fs[1])
  }

  /** A line the parser reads, whichever of the two keys it starts with. */
  predicate IsKeyLine(line: string) {
    StartsWith(line, MEM_TOTAL) || StartsWith(line, MEM_AVAILABLE)
  }

  /** A line on which the parser raises. */
  predicate IsBadLine(line: string) {
    IsKeyLine(line) && SecondField(line).None?
  }

  /** No key line of `lines` is malformed. */
  predicate NoBadLine(lines: seq<string>) {
    forall k :: 0 <= k < |lines| ==> !IsBadLine(lines[k])
  }

  /** The KiB value on the LAST line of `lines` that starts with `key`
    * (0 when there is none, the parser's initial value). */
  function LastReading(lines: seq<string>, key: string): int {
    if lines == [] then 0
    else
      var last := lines[|lines| - 1];
      if StartsWith(last, key) then SecondField(last).GetOr(0)
      else LastReading(lines[..|lines| - 1], key)
  }

  /** What the parser does with the lines of `/proc/meminfo`: raise if any
    * key line is malformed; else the last readings, scaled from KiB to bytes,
    * give `total - available` when both are positive and `None` otherwise. */
  function MeminfoOf(lines: seq<string>): (r: Outcome)
    ensures r.Returned? && r.bytes.Some? ==> r.bytes.value % 1024 == 0
    ensures r.Returned? && r.bytes.Some? ==> LastReading(lines, MEM_TOTAL) > 0 && LastReading(lines, MEM_AVAILABLE) > 0
  {
    if !NoBadLine(lines) then Raised
    else
      var total := LastReading(lines, MEM_TOTAL) * 1024;
      var available := LastReading(lines, MEM_AVAILABLE) * 1024;
      Returned(if total > 0 && available > 0 then Some(total - available) else None)
  }

  /** A nonzero reading comes from a line of the input: one that starts
    * with the key and whose second field is that value. */
  lemma {:induction false} LastReadingFromLine(lines: seq<string>, key: string)
    ensures var r := LastReading(lines, key);
      r == 0 || exists k :: 0 <= k < |lines| && StartsWith(lines[k], key) && SecondField(lines[k]) == Some(r)
  {
    if lines != [] && !StartsWith(lines[|lines| - 1], key) {
      var init := lines[..|lines| - 1];
      LastReadingFromLine(init, key);
      if LastReading(init, key) != 0 {
        var k :| 0 <= k < |init| && StartsWith(init[k], key) && SecondField(init[k]) == Some(LastReading(init, key));
        assert lines[k] == init[k];
      }
    }
  }

  /** The parser itself: one pass over `content.splitlines()`, overwriting
    * `total` and `available` each time a line starts with their key. */
  method ParseLinuxMeminfo(content: string) returns (r: Outcome)
    ensures r == MeminfoOf(SplitLines(content))
  {
    var lines := SplitLines(content);
    var total, available := 0, 0;
    for i := 0 to |lines|
      invariant NoBadLine(lines[..i])
      invariant total == LastReading(lines[..i], MEM_TOTAL) * 1024
      invariant available == LastReading(lines[..i], MEM_AVAILABLE) * 1024
    {
      var line := lines[i];
      ReadingStep(lines, i, MEM_TOTAL);
      ReadingStep(lines, i, MEM_AVAILABLE);
      KeysExclusive(line);
      if StartsWith(line, MEM_TOTAL) {
        var v := SecondField(line);
        if v.None? {
          BadLineRaises(lines, i);
          return Raised;
        }
        total := v.value * 1024;
      } else if StartsWith(line, MEM_AVAILABLE) {
        var v := SecondField(line);
        if v.None? {
          BadLineRaises(lines, i);
          return Raised;
        }
        available := v.value * 1024;
      }
      GoodLineStep(lines, i);
    }
    assert lines[..|lines|] == lines;
    if total > 0 && available > 0 {
      return Returned(Some(total - available));
    }
    return Returned(None);
  }

  /** One more line either replaces the reading of its key or leaves it. */
  lemma ReadingStep(lines: seq<string>, i: nat, key: string)
    requires i < |lines|
    ensures LastReading(lines[..i + 1], key)
         == if StartsWith(lines[i], key) then SecondField(lines[i]).GetOr(0) else LastReading(lines[..i], key)
  {
    assert lines[..i + 1][..i] == lines[..i];
  }

  lemma GoodLineStep(lines: seq<string>, i: nat)
    requires i < |lines| && NoBadLine(lines[..i]) && !IsBadLine(lines[i])
    ensures NoBadLine(lines[..i + 1])
  {
    assert forall k :: 0 <= k < i ==> lines[..i + 1][k] == lines[..i][k];
  }

  lemma BadLineRaises(lines: seq<string>, i: nat)
    requires i < |lines| && IsBadLine(lines[i])
    ensures MeminfoOf(lines) == Raised
  {
  }

  /** The callers (`fetch_memory_ssh_linux`, `fetch_memory_qga_linux`) turn
    * an exception of the parser into `None`. */
  function LinuxMemory(content: string): (r: Option<int>)
    ensures r.Some? ==> r.value % 1024 == 0
  {
    match MeminfoOf(SplitLines(content))
    case Raised => None
    case Returned(b) => b
  }

  // ---------------------------------------------------------------------
  // Properties
  // ---------------------------------------------------------------------

  /** A count comes back exactly when no key line is malformed and both
    * keys were seen last with positive values; it is then `T*1024 - A*1024`,
    * which may be zero or negative (nothing compares the two). */
  lemma MeminfoCount(lines: seq<string>, v: int)
    ensures MeminfoOf(lines) == Returned(Some(v)) <==>
      && NoBadLine(lines)
      && LastReading(lines, MEM_TOTAL) > 0
      && LastReading(lines, MEM_AVAILABLE) > 0
      && v == LastReading(lines, MEM_TOTAL) * 1024 - LastReading(lines, MEM_AVAILABLE) * 1024
  {
  }

  /** No line starts with both keys (they differ at their fourth character). */
  lemma KeysExclusive(line: string)
    ensures StartsWith(line, MEM_TOTAL) ==> !StartsWith(line, MEM_AVAILABLE)
  {
    if StartsWith(line, MEM_TOTAL) {
      assert line[3] == MEM_TOTAL[3] == 'T' != MEM_AVAILABLE[3];
    }
  }

  /** A key that never occurs leaves its reading at 0, so the result is `None`. */
  lemma {:induction false} MissingKeyReadsZero(lines: seq<string>, key: string)
    requires forall k :: 0 <= k < |lines| ==> !StartsWith(lines[k], key)
    ensures LastReading(lines, key) == 0
  {
    if lines != [] {
      MissingKeyReadsZero(lines[..|lines| - 1], key);
    }
  }

  lemma MissingKeyGivesNone(lines: seq<string>)
    requires
      || (forall k :: 0 <= k < |lines| ==> !StartsWith(lines[k], MEM_TOTAL))
      || (forall k :: 0 <= k < |lines| ==> !StartsWith(lines[k], MEM_AVAILABLE))
    ensures MeminfoOf(lines).Raised? || MeminfoOf(lines) == Returned(None)
  {
    if forall k :: 0 <= k < |lines| ==> !StartsWith(lines[k], MEM_TOTAL) {
      MissingKeyReadsZero(lines, MEM_TOTAL);
    } else {
      MissingKeyReadsZero(lines, MEM_AVAILABLE);
    }
  }

  /** Inserting a line that starts with neither key, anywhere, changes nothing. */
  lemma {:induction false} OtherLineIgnored(before: seq<string>, line: string, after: seq<string>, key: string)
    requires !StartsWith(line, key)
    ensures LastReading(before + [line] + after, key) == LastReading(before + after, key)
    decreases |after|
  {
    if after == [] {
      assert before + [line] + after == before + [line];
      assert (before + [line])[..|before|] == before;
      assert before + after == before;
    } else {
      var init := after[..|after| - 1];
      var last := after[|after| - 1];
      assert before + [line] + after == (before + [line] + init) + [last];
      assert before + after == (before + init) + [last];
      if !StartsWith(last, key) {
        OtherLineIgnored(before, line, init, key);
        assert (before + [line] + init + [last])[..|before + [line] + init|] == before + [line] + init;
        assert (before + init + [last])[..|before + init|] == before + init;
      }
    }
  }

  lemma OtherLineIgnoredByParser(before: seq<string>, line: string, after: seq<string>)
    requires !IsKeyLine(line)
    ensures MeminfoOf(before + [line] + after) == MeminfoOf(before + after)
  {
    OtherLineIgnored(before, line, after, MEM_TOTAL);
    OtherLineIgnored(before, line, after, MEM_AVAILABLE);
    NoBadLineInsert(before, line, after);
  }

  /** Inserting a line that is not malformed keeps the key lines well-formed
    * exactly when they were. */
  lemma NoBadLineInsert(before: seq<string>, line: string, after: seq<string>)
    requires !IsBadLine(line)
    ensures NoBadLine(before + [line] + after) == NoBadLine(before + after)
  {
    var xs := before + [line] + after;
    var ys := before + after;
    if exists k :: 0 <= k < |xs| && IsBadLine(xs[k]) {
      var k :| 0 <= k < |xs| && IsBadLine(xs[k]);
      var j := if k < |before| then k else k - 1;
      assert ys[j] == xs[k];
    }
    if exists k :: 0 <= k < |ys| && IsBadLine(ys[k]) {
      var k :| 0 <= k < |ys| && IsBadLine(ys[k]);
      var j := if k < |before| then k else k + 1;
      assert xs[j] == ys[k];
    }
  }

  /** A later line with the same key overrides an earlier one: once a key
    * line is followed, anywhere later, by another, the earlier one can be
    * dropped without changing the reading. */
  lemma {:induction false} LaterLineWins(before: seq<string>, first: string, middle: seq<string>, second: string,
                                         after: seq<string>, key: string)
    requires StartsWith(first, key) && StartsWith(second, key)
    ensures LastReading(before + [first] + middle + [second] + after, key)
         == LastReading(before + middle + [second] + after, key)
    decreases |after|
  {
    var xs := before + [first] + middle + [second];
    var ys := before + middle + [second];
    if after == [] {
      assert xs + after == xs && ys + after == ys;
      assert xs[|xs| - 1] == second && ys[|ys| - 1] == second;
    } else {
      var init := after[..|after| - 1];
      var last := after[|after| - 1];
      assert xs + after == (xs + init) + [last];
      assert ys + after == (ys + init) + [last];
      assert ((xs + init) + [last])[..|xs + init|] == xs + init;
      assert ((ys + init) + [last])[..|ys + init|] == ys + init;
      LaterLineWins(before, first, middle, second, init, key);
    }
  }

  /** The same for the parser: an earlier well-formed key line followed by a
    * later line with the same key does not change the outcome. */
  lemma LaterLineWinsByParser(before: seq<string>, first: string, middle: seq<string>, second: string,
                              after: seq<string>, key: string)
    requires key == MEM_TOTAL || key == MEM_AVAILABLE
    requires StartsWith(first, key) && StartsWith(second, key) && !IsBadLine(first)
    ensures MeminfoOf(before + [first] + middle + [second] + after)
         == MeminfoOf(before + middle + [second] + after)
  {
    var rest := middle + [second] + after;
    assert before + [first] + middle + [second] + after == before + [first] + rest;
    assert before + middle + [second] + after == before + rest;
    LaterLineWins(before, first, middle, second, after, key);
    var other := if key == MEM_TOTAL then MEM_AVAILABLE else MEM_TOTAL;
    KeysExclusive(first);
    OtherLineIgnored(before, first, rest, other);
    NoBadLineInsert(before, first, rest);
  }

  /** A meminfo line as the kernel writes it: the key, blanks that pad the
    * value to its column (at least one), the value in KiB and ` kB`. */
  function MeminfoLine(key: string, v: nat, gap: nat): string {
    key + Blanks(gap + 1) + IntToString(v) + " kB"
  }

  /** Lines of text that hold no line break and start with neither key. */
  predicate KeyFreeLines(ls: seq<string>) {
    forall k :: 0 <= k < |ls| ==> NoLineBreak(ls[k]) && !IsKeyLine(ls[k])
  }

  /** The figure of a well-formed `/proc/meminfo`: key-free lines, then
    * `MemTotal: T kB`, key-free lines (such as `MemFree:`), then
    * `MemAvailable: A kB`, then key-free text; with `T, A > 0` the result is
    * `(T - A) * 1024`. */
  lemma WellFormedMeminfo(pre: seq<string>, t: nat, gt: nat, mid: seq<string>, a: nat, ga: nat, rest: string)
    requires t > 0 && a > 0
    requires KeyFreeLines(pre) && KeyFreeLines(mid)
    requires forall k :: 0 <= k < |SplitLines(rest)| ==> !IsKeyLine(SplitLines(rest)[k])
    ensures LinuxMemory(LinesThen(pre + [MeminfoLine(MEM_TOTAL, t, gt)] + mid + [MeminfoLine(MEM_AVAILABLE, a, ga)], rest))
         == Some((t - a) * 1024)
  {
    var lt := MeminfoLine(MEM_TOTAL, t, gt);
    var la := MeminfoLine(MEM_AVAILABLE, a, ga);
    KeysAreWords();
    MeminfoLineReads(MEM_TOTAL, t, gt);
    MeminfoLineReads(MEM_AVAILABLE, a, ga);
    var ls := pre + [lt] + mid + [la];
    AllLinesWhole(pre, lt, mid, la);
    SplitLinesThen(ls, rest);
    TwoReadingsApart(pre, lt, mid, la, t, a, SplitLines(rest));
    LinuxMemoryOfCount(LinesThen(ls, rest), t, a);
  }

  lemma AllLinesWhole(pre: seq<string>, lt: string, mid: seq<string>, la: string)
    requires KeyFreeLines(pre) && KeyFreeLines(mid) && NoLineBreak(lt) && NoLineBreak(la)
    ensures var ls := pre + [lt] + mid + [la];
      forall k :: 0 <= k < |ls| ==> NoLineBreak(ls[k])
  {
    var ls := pre + [lt] + mid + [la];
    forall k | 0 <= k < |ls| ensures NoLineBreak(ls[k]) {
      if k < |pre| {
        assert ls[k] == pre[k];
      } else if k > |pre| && k < |pre| + 1 + |mid| {
        assert ls[k] == mid[k - |pre| - 1];
      }
    }
  }

  /** Nothing compares the two readings: `MemAvailable` above `MemTotal`
    * gives a negative count, which is returned (and written) as it is. */
  lemma NegativeCountPossible()
    ensures LinuxMemory(LinesThen([] + [MeminfoLine(MEM_TOTAL, 1, 0)] + [] + [MeminfoLine(MEM_AVAILABLE, 2, 0)], "")) == Some(-1024)
  {
    assert SplitLines("") == [];
    WellFormedMeminfo([], 1, 0, [], 2, 0, "");
  }

  lemma LinuxMemoryOfCount(content: string, t: int, a: int)
    requires MeminfoOf(SplitLines(content)) == Returned(Some(t * 1024 - a * 1024))
    ensures LinuxMemory(content) == Some((t - a) * 1024)
  {
    assert (t - a) * 1024 == t * 1024 - a * 1024;
  }

  lemma KeysAreWords()
    ensures MEM_TOTAL != [] && NoSpace(MEM_TOTAL)
    ensures MEM_AVAILABLE != [] && NoSpace(MEM_AVAILABLE)
  {
  }

  /** A `MemTotal:` line reading `t` and a `MemAvailable:` line reading `a`,
    * then key-free lines, give the count `t*1024 - a*1024`. */
  lemma TwoReadings(lt: string, la: string, t: nat, a: nat, tail: seq<string>)
    requires t > 0 && a > 0
    requires StartsWith(lt, MEM_TOTAL) && SecondField(lt) == Some(t)
    requires StartsWith(la, MEM_AVAILABLE) && SecondField(la) == Some(a)
    requires forall k :: 0 <= k < |tail| ==> !IsKeyLine(tail[k])
    ensures MeminfoOf([lt, la] + tail) == Returned(Some(t * 1024 - a * 1024))
  {
    var lines := [lt, la] + tail;
    KeysExclusive(lt);
    KeysExclusive(la);
    TailIgnored([lt, la], tail, MEM_TOTAL);
    TailIgnored([lt, la], tail, MEM_AVAILABLE);
    assert LastReading([lt, la], MEM_AVAILABLE) == a;
    assert LastReading([lt, la], MEM_TOTAL) == t by {
      assert [lt, la][..1] == [lt];
    }
    forall k | 0 <= k < |lines| ensures !IsBadLine(lines[k]) {
      if k >= 2 {
        assert lines[k] == tail[k - 2];
      }
    }
    assert NoBadLine(lines);
  }

  /** Key-free lines anywhere in the input do not change the outcome. */
  lemma {:induction false} KeyFreeDropped(xs: seq<string>, ys: seq<string>, zs: seq<string>)
    requires forall k :: 0 <= k < |ys| ==> !IsKeyLine(ys[k])
    ensures MeminfoOf(xs + ys + zs) == MeminfoOf(xs + zs)
    decreases |ys|
  {
    if ys != [] {
      assert xs + ys + zs == xs + [ys[0]] + (ys[1..] + zs);
      OtherLineIgnoredByParser(xs, ys[0], ys[1..] + zs);
      assert xs + (ys[1..] + zs) == xs + ys[1..] + zs;
      KeyFreeDropped(xs, ys[1..], zs);
    } else {
      assert xs + ys + zs == xs + zs;
    }
  }

  /** A `MemTotal:` line reading `t` and, later, a `MemAvailable:` line
    * reading `a`, among key-free lines, give the count `t*1024 - a*1024`. */
  lemma TwoReadingsApart(pre: seq<string>, lt: string, mid: seq<string>, la: string, t: nat, a: nat, tail: seq<string>)
    requires t > 0 && a > 0
    requires StartsWith(lt, MEM_TOTAL) && SecondField(lt) == Some(t)
    requires StartsWith(la, MEM_AVAILABLE) && SecondField(la) == Some(a)
    requires forall k :: 0 <= k < |pre| ==> !IsKeyLine(pre[k])
    requires forall k :: 0 <= k < |mid| ==> !IsKeyLine(mid[k])
    requires forall k :: 0 <= k < |tail| ==> !IsKeyLine(tail[k])
    ensures MeminfoOf(pre + [lt] + mid + [la] + tail) == Returned(Some(t * 1024 - a * 1024))
  {
    var rest := [lt] + mid + ([la] + tail);
    assert pre + [lt] + mid + [la] + tail == pre + rest;
    KeyFreePrefixDropped(pre, rest);
    KeyFreeDropped([lt], mid, [la] + tail);
    assert [lt] + ([la] + tail) == [lt, la] + tail;
    TwoReadings(lt, la, t, a, tail);
  }

  lemma {:induction false} KeyFreePrefixDropped(pre: seq<string>, rest: seq<string>)
    requires forall k :: 0 <= k < |pre| ==> !IsKeyLine(pre[k])
    ensures MeminfoOf(pre + rest) == MeminfoOf(rest)
    decreases |pre|
  {
    if pre == [] {
      assert pre + rest == rest;
    } else {
      var tl := pre[1..] + rest;
      assert pre + rest == [] + [pre[0]] + tl;
      OtherLineIgnoredByParser([], pre[0], tl);
      assert [] + tl == tl;
      KeyFreePrefixDropped(pre[1..], rest);
    }
  }

  /** A kernel-format line starts with its key, holds no line break, and
    * its second field reads back as its value. */
  lemma MeminfoLineReads(key: string, v: nat, gap: nat)
    requires key != [] && NoSpace(key)
    ensures StartsWith(MeminfoLine(key, v, gap), key)
    ensures SecondField(MeminfoLine(key, v, gap)) == Some(v)
    ensures NoLineBreak(MeminfoLine(key, v, gap))
  {
    var line := MeminfoLine(key, v, gap);
    var after := Blanks(gap + 1) + (IntToString(v) + " kB");
    assert line == key + after;
    assert line[..|key|] == key;
    MeminfoLineFields(key, v, gap, after);
    ParseIntRoundTrip(v);
    MeminfoLineNoBreak(key, v, gap, after);
  }

  lemma MeminfoLineFields(key: string, v: nat, gap: nat, after: string)
    requires key != [] && NoSpace(key)
    requires after == Blanks(gap + 1) + (IntToString(v) + " kB")
    ensures Fields(key + after) == [key, IntToString(v), "kB"]
  {
    var digits := IntToString(v);
    IntToStringWord(v);
    var s := " kB";
    assert s[0] == ' ' && s[1..] == "kB";
    FieldsOfWord("kB");
    assert Fields(s) == ["kB"];
    FieldsAfterWord(digits, s);
    FieldsSkipsBlanks(gap + 1, digits + s);
    FieldsAfterWord(key, after);
  }

  lemma MeminfoLineNoBreak(key: string, v: nat, gap: nat, after: string)
    requires NoSpace(key)
    requires after == Blanks(gap + 1) + (IntToString(v) + " kB")
    ensures NoLineBreak(key + after)
  {
    IntToStringWord(v);
    NoSpaceNoLineBreak(key);
    NoSpaceNoLineBreak(IntToString(v));
    assert NoLineBreak(" kB");
    assert NoLineBreak(Blanks(gap + 1));
    NoLineBreakConcat(IntToString(v), " kB");
    NoLineBreakConcat(Blanks(gap + 1), IntToString(v) + " kB");
    NoLineBreakConcat(key, after);
  }

  /** Key-free lines after a prefix leave that prefix's reading as it was. */
  lemma {:induction false} TailIgnored(front: seq<string>, tail: seq<string>, key: string)
    requires forall k :: 0 <= k < |tail| ==> !IsKeyLine(tail[k])
    requires key == MEM_TOTAL || key == MEM_AVAILABLE
    ensures LastReading(front + tail, key) == LastReading(front, key)
    decreases |tail|
  {
    if tail == [] {
      assert front + tail == front;
    } else {
      var init := tail[..|tail| - 1];
      assert front + tail == (front + init) + [tail[|tail| - 1]];
      assert (front + tail)[..|front + tail| - 1] == front + init;
      TailIgnored(front, init, key);
    }
  }
}
