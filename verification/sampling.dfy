/**
 * What one sampling pass (`GetNetBytes`) computes from the raw interface table,
 * as a left fold over its lines. The classes in TmuxNetwork and
 * LegacyStatusLine run this fold as a loop; the lemmas here state what the
 * fold promises: sums restart from zero, each interface is recorded (and its
 * transmit bytes added) at most once, lines the skip tests catch change
 * nothing, the interface filter is respected, and a receive field is added
 * even when the transmit field then fails, so an interface's receive bytes can
 * be added again by a later line for it. On Linux the skip test misses the
 * kernel's `lo:` line; the Intended layouts correct that.
 */
module Sampling {
  import opened Wrappers
  import opened PyText

  /** What the host answers during one sampling: netstat's text, /proc/net/dev's lines, `time()`. */
  datatype OsInput = OsInput(netstat: string, procNetDev: seq<string>, now: real)

  /**
   * The table formats: `netstat -nbi`, and `/proc/net/dev` as read by the
   * current and the legacy version. `IntendedLinux` and `IntendedLegacyLinux`
   * are those two Linux readings corrected to skip the loopback line, whose
   * first token the kernel writes as `lo:` (see `LinuxLoopbackCounted`).
   */
  datatype Layout = Darwin | Linux | LegacyLinux | IntendedLinux | IntendedLegacyLinux

  /** What one raw line amounts to for the loop body. */
  datatype Row =
    | Skip                  // too short, loopback or header: `continue`
    | Blank                 // no token at all where `data[0]` is read unguarded: IndexError escapes
    | Stats(name: string, rxField: Option<string>, txField: Option<string>)

  /** The interface setting: the string 'all' or one interface name. */
  datatype Filter = Everything | Named(name: string)

  predicate Admits(f: Filter, name: string) {
    f.Everything? || f.name == name
  }

  /** The filter a configured interface string selects. */
  function FilterOf(interface: string): (f: Filter)
    ensures forall name :: Admits(f, name) <==> (name == interface || interface == "all")
  {
    if interface == "all" then Everything else Named(interface)
  }

  /** `data[k]`, absent when the index is out of range (IndexError inside the try). */
  function Field(data: seq<string>, k: nat): Option<string> {
    if k < |data| then Some(data[k]) else None
  }

  /** `int(data[k])` inside the try: None for a missing or unparsable field. */
  function ParseField(field: Option<string>): Option<int> {
    match field
    case None => None
    case Some(tok) => ParseInt(tok)
  }

  /** A netstat line: at least 10 tokens, first token free of 'lo' and 'Name'; bytes in columns 6 and 9. */
  function DarwinRow(line: string): Row {
    var data := Words(line);
    if |data| < 10 then Skip
    else if Contains(data[0], "lo") || Contains(data[0], "Name") then Skip
    else Stats(data[0], Some(data[6]), Some(data[9]))
  }

  /** A /proc/net/dev line is skipped when one of its tokens is exactly 'lo', 'Inter-' or 'face'. */
  predicate LinuxSkipped(data: seq<string>) {
    "lo" in data || "Inter-" in data || "face" in data
  }

  /** `tok.split(':')[0]`: the part of a token before its first ':'. */
  function StripColon(tok: string): string {
    Split(tok, ':')[0]
  }

  /**
   * A /proc/net/dev line: bytes in columns 1 and 9. The current version names
   * the interface by the part of the first token before ':', the legacy one by
   * the whole first token. `skipLoopback` is the correction that also skips a
   * line whose first token names `lo`.
   */
  function LinuxRow(line: string, stripColon: bool, skipLoopback: bool): Row {
    var data := Words(line);
    if LinuxSkipped(data) then Skip
    else if data == [] then Blank
    else if skipLoopback && StripColon(data[0]) == "lo" then Skip
    else Stats(if stripColon then StripColon(data[0]) else data[0], Field(data, 1), Field(data, 9))
  }

  function Classify(layout: Layout, line: string): Row {
    match layout
    case Darwin => DarwinRow(line)
    case Linux => LinuxRow(line, true, false)
    case LegacyLinux => LinuxRow(line, false, false)
    case IntendedLinux => LinuxRow(line, true, true)
    case IntendedLegacyLinux => LinuxRow(line, false, true)
  }

  /**
   * The loop's running state: the two sums, the `interfaces` list of names
   * already counted, and whether an exception has escaped the loop.
   */
  datatype Tally = Tally(rx: int, tx: int, seen: seq<string>, crashed: bool)

  const Fresh := Tally(0, 0, [], false)

  /** One pass of the loop body over one classified line. */
  function Step(t: Tally, row: Row, f: Filter): Tally {
    if t.crashed then t
    else
      match row
      case Skip => t
      case Blank => t.(crashed := true)
      case Stats(name, rxField, txField) =>
        if !Admits(f, name) || name in t.seen then t
        else
          match ParseField(rxField)
          case None => t
          case Some(a) =>
            match ParseField(txField)
            case None => t.(rx := t.rx + a)
            case Some(b) => Tally(t.rx + a, t.tx + b, t.seen + [name], false)
  }

  /** The tally after the loop has run over `lines`, starting from zero sums. */
  function Sum(layout: Layout, lines: seq<string>, f: Filter): Tally {
    if lines == [] then Fresh
    else Step(Sum(layout, lines[..|lines| - 1], f), Classify(layout, lines[|lines| - 1]), f)
  }

  lemma SumSnoc(layout: Layout, lines: seq<string>, line: string, f: Filter)
    ensures Sum(layout, lines + [line], f) == Step(Sum(layout, lines, f), Classify(layout, line), f)
  {
    assert (lines + [line])[..|lines|] == lines;
  }

  /** A row that is admitted and whose two counters both parse: its name is recorded. */
  predicate Completes(row: Row, f: Filter) {
    row.Stats? && Admits(f, row.name) && ParseField(row.rxField).Some? && ParseField(row.txField).Some?
  }

  /** Some line of `lines` completes under `f` with interface name `name`. */
  ghost predicate CompletedIn(layout: Layout, lines: seq<string>, f: Filter, name: string) {
    exists j :: 0 <= j < |lines| && Completes(Classify(layout, lines[j]), f) && Classify(layout, lines[j]).name == name
  }

  predicate HasBlank(layout: Layout, lines: seq<string>) {
    exists j :: 0 <= j < |lines| && Classify(layout, lines[j]).Blank?
  }

  lemma HasBlankSnoc(layout: Layout, init: seq<string>, last: string)
    ensures HasBlank(layout, init + [last]) <==> HasBlank(layout, init) || Classify(layout, last).Blank?
  {
    var lines := init + [last];
    if HasBlank(layout, init) {
      var j :| 0 <= j < |init| && Classify(layout, init[j]).Blank?;
      assert lines[j] == init[j];
    }
    if Classify(layout, last).Blank? {
      assert lines[|init|] == last;
    }
    if HasBlank(layout, lines) {
      var j :| 0 <= j < |lines| && Classify(layout, lines[j]).Blank?;
      if j < |init| {
        assert lines[j] == init[j];
      }
    }
  }

  lemma CompletedInSnoc(layout: Layout, init: seq<string>, last: string, f: Filter, name: string)
    ensures CompletedIn(layout, init + [last], f, name)
        <==> CompletedIn(layout, init, f, name) || (Completes(Classify(layout, last), f) && Classify(layout, last).name == name)
  {
    var lines := init + [last];
    if CompletedIn(layout, init, f, name) {
      var j :| 0 <= j < |init| && Completes(Classify(layout, init[j]), f) && Classify(layout, init[j]).name == name;
      assert lines[j] == init[j];
    }
    if Completes(Classify(layout, last), f) && Classify(layout, last).name == name {
      assert lines[|init|] == last;
    }
    if CompletedIn(layout, lines, f, name) {
      var j :| 0 <= j < |lines| && Completes(Classify(layout, lines[j]), f) && Classify(layout, lines[j]).name == name;
      if j < |init| {
        assert lines[j] == init[j];
      }
    }
  }

  /** The loop is cut short exactly when some line has no token where one is indexed. */
  lemma {:induction false} CrashedIffBlank(layout: Layout, lines: seq<string>, f: Filter)
    ensures Sum(layout, lines, f).crashed <==> HasBlank(layout, lines)
  {
    if lines != [] {
      var init := lines[..|lines| - 1];
      var last := lines[|lines| - 1];
      assert lines == init + [last];
      CrashedIffBlank(layout, init, f);
      HasBlankSnoc(layout, init, last);
    }
  }

  /** Once the exception has escaped, later lines are never looked at. */
  lemma {:induction false} CrashIsFinal(layout: Layout, lines: seq<string>, k: nat, f: Filter)
    requires k <= |lines|
    requires Sum(layout, lines[..k], f).crashed
    ensures Sum(layout, lines, f) == Sum(layout, lines[..k], f)
  {
    if k < |lines| {
      var init := lines[..|lines| - 1];
      assert init[..k] == lines[..k];
      CrashIsFinal(layout, init, k, f);
    } else {
      assert lines[..k] == lines;
    }
  }

  /**
   * The names recorded as counted are exactly the names of the lines that
   * completed (admitted, both counters parsed), as long as no exception escaped.
   */
  lemma {:induction false} SeenIsCompleted(layout: Layout, lines: seq<string>, f: Filter)
    requires !HasBlank(layout, lines)
    ensures forall name :: name in Sum(layout, lines, f).seen <==> CompletedIn(layout, lines, f, name)
  {
    if lines != [] {
      var init := lines[..|lines| - 1];
      var last := lines[|lines| - 1];
      assert lines == init + [last];
      HasBlankSnoc(layout, init, last);
      CrashedIffBlank(layout, init, f);
      SeenIsCompleted(layout, init, f);
      forall name
        ensures name in Sum(layout, lines, f).seen <==> CompletedIn(layout, lines, f, name)
      {
        CompletedInSnoc(layout, init, last, f, name);
      }
    }
  }

  predicate Distinct(s: seq<string>) {
    forall i, j :: 0 <= i < j < |s| ==> s[i] != s[j]
  }

  /** Each interface name is recorded at most once, and only names the filter admits. */
  lemma {:induction false} SeenDistinctAndAdmitted(layout: Layout, lines: seq<string>, f: Filter)
    ensures Distinct(Sum(layout, lines, f).seen)
    ensures forall k :: 0 <= k < |Sum(layout, lines, f).seen| ==> Admits(f, Sum(layout, lines, f).seen[k])
  {
    if lines != [] {
      SeenDistinctAndAdmitted(layout, lines[..|lines| - 1], f);
    }
  }

  lemma DistinctFirstTwo(s: seq<string>)
    requires Distinct(s) && |s| >= 2
    ensures s[0] != s[1]
  {
  }

  /** With one interface named, at most that one interface is ever recorded as counted. */
  lemma NamedCountsAtMostOne(layout: Layout, lines: seq<string>, name: string)
    ensures |Sum(layout, lines, Named(name)).seen| <= 1
    ensures forall k :: 0 <= k < |Sum(layout, lines, Named(name)).seen| ==> Sum(layout, lines, Named(name)).seen[k] == name
  {
    SeenDistinctAndAdmitted(layout, lines, Named(name));
    var s := Sum(layout, lines, Named(name)).seen;
    if |s| >= 2 {
      DistinctFirstTwo(s);
      assert false;
    }
  }

  /** Parsed value of a field, 0 when it is missing or does not parse. */
  function ValueOr0(field: Option<string>): int {
    match ParseField(field)
    case None => 0
    case Some(v) => v
  }

  /**
   * What one more line adds, stated without the loop's `interfaces` list:
   * nothing when it is skipped, filtered out, or its interface already
   * completed on an earlier line; otherwise its receive field whenever that
   * parses, and its transmit field only when both parse.
   */
  lemma LineContribution(layout: Layout, lines: seq<string>, line: string, f: Filter)
    requires !HasBlank(layout, lines + [line])
    ensures var before := Sum(layout, lines, f);
            var after := Sum(layout, lines + [line], f);
            var row := Classify(layout, line);
            var counted := row.Stats? && Admits(f, row.name) && !CompletedIn(layout, lines, f, row.name);
            after.rx == before.rx + (if counted then ValueOr0(row.rxField) else 0) &&
            after.tx == before.tx + (if counted && Completes(row, f) then ValueOr0(row.txField) else 0)
  {
    assert forall j :: 0 <= j < |lines| ==> (lines + [line])[j] == lines[j];
    assert (lines + [line])[|lines|] == line;
    CrashedIffBlank(layout, lines, f);
    SeenIsCompleted(layout, lines, f);
    SumSnoc(layout, lines, line, f);
  }

  /** A second line for an interface that already completed adds nothing at all. */
  lemma DuplicateAddsNothing(layout: Layout, lines: seq<string>, line: string, f: Filter)
    requires !HasBlank(layout, lines)
    requires Classify(layout, line).Stats? && CompletedIn(layout, lines, f, Classify(layout, line).name)
    ensures Sum(layout, lines + [line], f) == Sum(layout, lines, f)
  {
    CrashedIffBlank(layout, lines, f);
    SeenIsCompleted(layout, lines, f);
    SumSnoc(layout, lines, line, f);
  }

  /**
   * A line whose receive field parses but whose transmit field does not still
   * adds to the receive sum, and its interface is not recorded, so a later
   * line for it can count again.
   */
  lemma PartialLineCountsReceive(layout: Layout, lines: seq<string>, line: string, f: Filter)
    requires !Sum(layout, lines, f).crashed
    requires var row := Classify(layout, line);
      row.Stats? && Admits(f, row.name) && row.name !in Sum(layout, lines, f).seen &&
      ParseField(row.rxField).Some? && ParseField(row.txField).None?
    ensures var before := Sum(layout, lines, f);
            var after := Sum(layout, lines + [line], f);
            after.rx == before.rx + ParseField(Classify(layout, line).rxField).value &&
            after.tx == before.tx && after.seen == before.seen && !after.crashed
  {
    var before := Sum(layout, lines, f);
    var row := Classify(layout, line);
    SumSnoc(layout, lines, line, f);
    assert Step(before, row, f) == before.(rx := before.rx + ParseField(row.rxField).value);
  }

  /**
   * The loopback test each layout applies as written: a first token containing
   * 'lo' (Darwin), a bare token equal to 'lo' (Linux). The kernel's loopback
   * line starts `lo:`, which the Linux test misses (`LinuxLoopbackCounted`).
   */
  predicate Loopback(layout: Layout, line: string) {
    var data := Words(line);
    if layout == Darwin then data != [] && Contains(data[0], "lo") else "lo" in data
  }

  /** A line the loopback test catches changes nothing, whatever the filter says. */
  lemma LoopbackIgnored(layout: Layout, lines: seq<string>, line: string, f: Filter)
    requires Loopback(layout, line)
    ensures Sum(layout, lines + [line], f) == Sum(layout, lines, f)
  {
    SumSnoc(layout, lines, line, f);
  }

  /**
   * A line with an 'Inter-' or 'face' token changes nothing either. Of the two
   * header lines of /proc/net/dev only the second (' face |bytes ...') has
   * such a token; the first starts 'Inter-|' and changes nothing only because
   * its second token, 'Receive', does not parse as an integer.
   */
  lemma LinuxHeaderIgnored(layout: Layout, lines: seq<string>, line: string, f: Filter)
    requires layout != Darwin
    requires "Inter-" in Words(line) || "face" in Words(line)
    ensures Sum(layout, lines + [line], f) == Sum(layout, lines, f)
  {
    SumSnoc(layout, lines, line, f);
  }

  /** A netstat line with fewer than 10 tokens, or a 'Name' header, changes nothing. */
  lemma DarwinShortOrHeaderIgnored(lines: seq<string>, line: string, f: Filter)
    requires |Words(line)| < 10 || Contains(Words(line)[0], "Name")
    ensures Sum(Darwin, lines + [line], f) == Sum(Darwin, lines, f)
  {
    SumSnoc(Darwin, lines, line, f);
  }

  /** Netstat output never cuts the loop short. */
  lemma {:induction false} DarwinNeverCrashes(lines: seq<string>, f: Filter)
    ensures !Sum(Darwin, lines, f).crashed
  {
    if lines != [] {
      DarwinNeverCrashes(lines[..|lines| - 1], f);
    }
  }

  /**
   * The Linux fallback: the interface setting becomes 'all' unless some raw
   * line (newline included) is exactly the configured string.
   */
  function LinuxInterface(interface: string, lines: seq<string>): (r: string)
    ensures r == interface || r == "all"
    ensures r == interface <==> (interface in lines || interface == "all")
  {
    if interface !in lines then "all" else interface
  }

  predicate EndsWithNewline(line: string) {
    line != [] && line[|line| - 1] == '\n'
  }

  /** Since `readlines()` keeps each line's newline, a plain interface name is always reset to 'all'. */
  lemma FallbackWhenLinesEndInNewline(interface: string, lines: seq<string>)
    requires forall k :: 0 <= k < |lines| ==> EndsWithNewline(lines[k])
    requires '\n' !in interface
    ensures LinuxInterface(interface, lines) == "all"
  {
  }

  /** The current version names a Linux interface by the text before the first ':' of its first token. */
  lemma LinuxNameBeforeColon(line: string)
    requires Classify(Linux, line).Stats?
    ensures var tok := Words(line)[0];
            var name := Classify(Linux, line).name;
            name <= tok && ':' !in name && (|name| < |tok| ==> tok[|name|] == ':')
  {
    FirstPiece(Words(line)[0], ':');
  }

  /**
   * Every two legacy interface names (whole first tokens) that strip to the
   * same name are equal, so stripping at ':' merges no two interfaces.
   */
  predicate StripInjective(lines: seq<string>) {
    forall j, k ::
      0 <= j < |lines| && 0 <= k < |lines| &&
      Classify(LegacyLinux, lines[j]).Stats? && Classify(LegacyLinux, lines[k]).Stats? &&
      StripColon(Classify(LegacyLinux, lines[j]).name) == StripColon(Classify(LegacyLinux, lines[k]).name)
      ==> Classify(LegacyLinux, lines[j]).name == Classify(LegacyLinux, lines[k]).name
  }

  /** Some line of `lines` is a legacy Linux row named `name`. */
  ghost predicate StatsNamedIn(lines: seq<string>, name: string) {
    exists j :: 0 <= j < |lines| && Classify(LegacyLinux, lines[j]).Stats? && Classify(LegacyLinux, lines[j]).name == name
  }

  /** The names of `seen`, each stripped at ':'. */
  function MapStrip(seen: seq<string>): seq<string> {
    seq(|seen|, k requires 0 <= k < |seen| => StripColon(seen[k]))
  }

  /**
   * The kernel writes each interface as `name:` followed by its counters. Such
   * colon-terminated first tokens strip injectively.
   */
  predicate ColonTerminated(line: string) {
    var data := Words(line);
    data == [] || (|data[0]| >= 1 && data[0][|data[0]| - 1] == ':' && ':' !in data[0][..|data[0]| - 1])
  }

  lemma StripColonTerminated(tok: string)
    requires |tok| >= 1 && tok[|tok| - 1] == ':' && ':' !in tok[..|tok| - 1]
    ensures StripColon(tok) + ":" == tok
  {
    assert tok == tok[..|tok| - 1] + [':'] + [];
    SplitOfPieceThen(tok[..|tok| - 1], ':', []);
  }

  /**
   * A line of /proc/net/dev as the kernel writes it: the first header line
   * (first token `Inter-|`), the second header line (holding a `face` token),
   * or an interface line whose first token is `name:`, where no interface is
   * itself called `Inter-|`.
   */
  predicate KernelLine(line: string) {
    var data := Words(line);
    (ColonTerminated(line) && (data == [] || data[0] != "Inter-|:"))
    || (data != [] && (data[0] == "Inter-|" || "face" in data))
  }

  /** The first token of a legacy Linux row of a kernel line, stripped at ':'. */
  lemma KernelRowStrip(line: string)
    requires KernelLine(line) && Classify(LegacyLinux, line).Stats?
    ensures var n := Classify(LegacyLinux, line).name;
            (n == "Inter-|" && StripColon(n) == n) || (StripColon(n) + ":" == n && n != "Inter-|:")
  {
    var data := Words(line);
    if data[0] == "Inter-|" {
      SplitOfPiece("Inter-|", ':');
    } else {
      StripColonTerminated(data[0]);
    }
  }

  /**
   * The first header line of /proc/net/dev is not skipped by the legacy loop:
   * it is a row named `Inter-|` (whose receive field `Receive` then fails to
   * parse), and it is a kernel line.
   */
  lemma KernelHeaderLine(line: string)
    requires Words(line) == ["Inter-|", "Receive", "|", "Transmit"]
    ensures KernelLine(line) && !ColonTerminated(line)
    ensures Classify(LegacyLinux, line) == Stats("Inter-|", Some("Receive"), None)
  {
    assert "Inter-|"[6] == '|';
    assert "lo" != "Inter-|" && "Inter-" != "Inter-|" && "face" != "Inter-|";
  }

  /** /proc/net/dev as the kernel writes it meets the hypothesis of `LegacyLinuxAgreesUpToColons`. */
  lemma KernelTableIsStripInjective(lines: seq<string>)
    requires forall k :: 0 <= k < |lines| ==> KernelLine(lines[k])
    ensures StripInjective(lines)
  {
    forall j, k |
      0 <= j < |lines| && 0 <= k < |lines| &&
      Classify(LegacyLinux, lines[j]).Stats? && Classify(LegacyLinux, lines[k]).Stats? &&
      StripColon(Classify(LegacyLinux, lines[j]).name) == StripColon(Classify(LegacyLinux, lines[k]).name)
      ensures Classify(LegacyLinux, lines[j]).name == Classify(LegacyLinux, lines[k]).name
    {
      KernelRowStrip(lines[j]);
      KernelRowStrip(lines[k]);
    }
  }

  /** One loop step keeps the current and legacy tallies in step, given the hypothesis on the earlier lines. */
  lemma AgreeStep(init: seq<string>, last: string, a: Tally, b: Tally)
    requires StripInjective(init + [last])
    requires a.rx == b.rx && a.tx == b.tx && a.crashed == b.crashed && a.seen == MapStrip(b.seen)
    requires forall n :: n in b.seen ==> StatsNamedIn(init, n)
    ensures var a' := Step(a, Classify(Linux, last), Everything);
            var b' := Step(b, Classify(LegacyLinux, last), Everything);
            a'.rx == b'.rx && a'.tx == b'.tx && a'.crashed == b'.crashed && a'.seen == MapStrip(b'.seen)
    ensures forall n :: n in Step(b, Classify(LegacyLinux, last), Everything).seen ==> StatsNamedIn(init + [last], n)
  {
    var lines := init + [last];
    var row := Classify(LegacyLinux, last);
    assert lines[|init|] == last;
    forall n | StatsNamedIn(init, n)
      ensures StatsNamedIn(lines, n)
    {
      var j :| 0 <= j < |init| && Classify(LegacyLinux, init[j]).Stats? && Classify(LegacyLinux, init[j]).name == n;
      assert lines[j] == init[j];
    }
    if !b.crashed && row.Stats? {
      var n := row.name;
      assert Classify(Linux, last) == Stats(StripColon(n), row.rxField, row.txField);
      StrippedSeenIff(init, last, b.seen);
      assert MapStrip(b.seen + [n]) == MapStrip(b.seen) + [StripColon(n)];
      assert StatsNamedIn(lines, n);
    }
  }

  /** The stripped name of a new legacy row is already counted exactly when the row's own name is. */
  lemma StrippedSeenIff(init: seq<string>, last: string, seen: seq<string>)
    requires StripInjective(init + [last])
    requires Classify(LegacyLinux, last).Stats?
    requires forall n :: n in seen ==> StatsNamedIn(init, n)
    ensures var n := Classify(LegacyLinux, last).name;
            StripColon(n) in MapStrip(seen) <==> n in seen
  {
    var lines := init + [last];
    var n := Classify(LegacyLinux, last).name;
    assert lines[|init|] == last;
    if StripColon(n) in MapStrip(seen) {
      var k :| 0 <= k < |seen| && MapStrip(seen)[k] == StripColon(n);
      assert seen[k] in seen;
      var j :| 0 <= j < |init| && Classify(LegacyLinux, init[j]).Stats? && Classify(LegacyLinux, init[j]).name == seen[k];
      assert lines[j] == init[j];
    }
    if n in seen {
      var k :| 0 <= k < |seen| && seen[k] == n;
      assert MapStrip(seen)[k] == StripColon(n);
    }
  }

  /**
   * The current and the legacy /proc/net/dev loops sum alike under "all" as
   * long as stripping at ':' merges no two interfaces; the current list of
   * counted names is then the legacy one, stripped.
   */
  lemma {:induction false} LegacyLinuxAgreesUpToColons(lines: seq<string>)
    requires StripInjective(lines)
    ensures var a := Sum(Linux, lines, Everything);
            var b := Sum(LegacyLinux, lines, Everything);
            a.rx == b.rx && a.tx == b.tx && a.crashed == b.crashed && a.seen == MapStrip(b.seen)
    ensures forall n :: n in Sum(LegacyLinux, lines, Everything).seen ==> StatsNamedIn(lines, n)
  {
    if lines != [] {
      var init := lines[..|lines| - 1];
      var last := lines[|lines| - 1];
      assert lines == init + [last];
      assert forall j :: 0 <= j < |init| ==> init[j] == lines[j];
      LegacyLinuxAgreesUpToColons(init);
      SumSnoc(Linux, init, last, Everything);
      SumSnoc(LegacyLinux, init, last, Everything);
      AgreeStep(init, last, Sum(Linux, init, Everything), Sum(LegacyLinux, init, Everything));
    }
  }

  /** Whether the first token of `line` names the loopback interface, `lo:` as the kernel writes it. */
  predicate LoopbackName(line: string) {
    var data := Words(line);
    data != [] && StripColon(data[0]) == "lo"
  }

  /** The tokens of the kernel's loopback line: `lo:`, receive bytes 100, transmit bytes 200. */
  const LoTokens: seq<string> := ["lo:", "100", "1", "0", "0", "0", "0", "0", "0", "200", "1"]
  const LoLine := SpaceJoin(LoTokens)

  lemma LoLineWords()
    ensures Words(LoLine) == LoTokens
  {
    forall k | 0 <= k < |LoTokens|
      ensures LoTokens[k] != [] && NoSpace(LoTokens[k])
    {
      LoTokenPlain(k);
    }
    WordsOfSpaceJoin(LoTokens);
  }

  lemma LoTokenPlain(k: nat)
    requires k < |LoTokens|
    ensures LoTokens[k] != [] && NoSpace(LoTokens[k])
  {
    var t := LoTokens[k];
    assert t == "lo:" || t == "100" || t == "1" || t == "0" || t == "200";
  }

  lemma LoStrip()
    ensures StripColon("lo:") == "lo"
  {
    assert "lo:" == "lo" + [':'] + [];
    SplitOfPieceThen("lo", ':', []);
  }

  lemma LoCounters()
    ensures ParseInt("100") == Some(100) && ParseInt("200") == Some(200)
  {
    assert DigitChar(0) == '0' && DigitChar(1) == '1' && DigitChar(2) == '2';
    assert ShowNat(10) == "10" && ShowNat(20) == "20";
    assert ShowInt(100) == "100" && ShowInt(200) == "200";
    ParseShowInt(100);
    ParseShowInt(200);
  }

  lemma LoRows(line: string)
    requires Words(line) == LoTokens
    ensures Classify(Linux, line) == Stats("lo", Some("100"), Some("200"))
    ensures Classify(LegacyLinux, line) == Stats("lo:", Some("100"), Some("200"))
  {
    LoStrip();
    assert LoTokens[0] == "lo:" && LoTokens[1] == "100" && LoTokens[9] == "200";
    assert "lo" !in LoTokens && "Inter-" !in LoTokens && "face" !in LoTokens;
  }

  /**
   * As written, the Linux test `'lo' in data` compares whole tokens, so the
   * loopback line (first token `lo:`, such as `LoLine`, see `LoLineWords`) is
   * not skipped and its bytes are summed by both versions.
   */
  lemma LinuxLoopbackCounted(line: string)
    requires Words(line) == LoTokens
    ensures LoopbackName(line) && !Loopback(Linux, line) && !Loopback(LegacyLinux, line)
    ensures Sum(Linux, [line], Everything) == Tally(100, 200, ["lo"], false)
    ensures Sum(LegacyLinux, [line], Everything) == Tally(100, 200, ["lo:"], false)
  {
    LoRows(line);
    LoStrip();
    LoCounters();
    LoSum(Linux, line, "lo");
    LoSum(LegacyLinux, line, "lo:");
  }

  lemma LoSum(layout: Layout, line: string, name: string)
    requires Classify(layout, line) == Stats(name, Some("100"), Some("200"))
    requires ParseInt("100") == Some(100) && ParseInt("200") == Some(200)
    ensures Sum(layout, [line], Everything) == Tally(100, 200, [name], false)
  {
    assert [] + [line] == [line];
    SumSnoc(layout, [], line, Everything);
    assert Sum(layout, [], Everything) == Fresh;
  }

  /** Corrected: a line naming `lo` changes nothing, whatever the filter says. */
  lemma IntendedLoopbackIgnored(layout: Layout, lines: seq<string>, line: string, f: Filter)
    requires layout == IntendedLinux || layout == IntendedLegacyLinux
    requires LoopbackName(line)
    ensures Sum(layout, lines + [line], f) == Sum(layout, lines, f)
  {
    SumSnoc(layout, lines, line, f);
  }

  /** A corrected row never names the loopback interface. */
  lemma IntendedRowNotLoopback(layout: Layout, line: string)
    requires layout == IntendedLinux || layout == IntendedLegacyLinux
    ensures Classify(layout, line).Stats? ==> StripColon(Classify(layout, line).name) != "lo"
  {
    var row := Classify(layout, line);
    if row.Stats? && layout == IntendedLinux {
      SplitOfPiece(row.name, ':');
    }
  }

  /** One step either keeps the list of counted names or appends the row's name. */
  lemma StepSeen(t: Tally, row: Row, f: Filter)
    ensures Step(t, row, f).seen == t.seen || (row.Stats? && Step(t, row, f).seen == t.seen + [row.name])
  {
  }

  /** Corrected: the loopback interface is never among the counted names. */
  lemma {:induction false} IntendedNeverCountsLoopback(layout: Layout, lines: seq<string>, f: Filter)
    requires layout == IntendedLinux || layout == IntendedLegacyLinux
    ensures forall k :: 0 <= k < |Sum(layout, lines, f).seen| ==> StripColon(Sum(layout, lines, f).seen[k]) != "lo"
  {
    if lines != [] {
      var init := lines[..|lines| - 1];
      var row := Classify(layout, lines[|lines| - 1]);
      IntendedNeverCountsLoopback(layout, init, f);
      IntendedRowNotLoopback(layout, lines[|lines| - 1]);
      assert Sum(layout, lines, f) == Step(Sum(layout, init, f), row, f);
      StepSeen(Sum(layout, init, f), row, f);
    }
  }

  /** The corrected version of a Linux layout: the same loop, with the loopback line skipped. */
  function Intended(layout: Layout): Layout {
    match layout
    case Linux => IntendedLinux
    case LegacyLinux => IntendedLegacyLinux
    case _ => layout
  }

  /** The table with its loopback lines (first token naming `lo`) removed, in order. */
  function DropLoopback(lines: seq<string>): (r: seq<string>)
    ensures forall x :: x in r <==> x in lines && !LoopbackName(x)
    ensures |r| <= |lines|
  {
    if lines == [] then []
    else
      var init := DropLoopback(lines[..|lines| - 1]);
      var last := lines[|lines| - 1];
      assert lines == lines[..|lines| - 1] + [last];
      if LoopbackName(last) then init else init + [last]
  }

  /** A table without loopback lines loses nothing. */
  lemma {:induction false} DropLoopbackKeeps(lines: seq<string>)
    requires forall k :: 0 <= k < |lines| ==> !LoopbackName(lines[k])
    ensures DropLoopback(lines) == lines
  {
    if lines != [] {
      DropLoopbackKeeps(lines[..|lines| - 1]);
      assert lines == lines[..|lines| - 1] + [lines[|lines| - 1]];
    }
  }

  /** Outside a loopback line the corrected and the as-written layouts classify alike. */
  lemma IntendedRow(layout: Layout, line: string)
    requires layout == Linux || layout == LegacyLinux
    ensures LoopbackName(line) ==> Classify(Intended(layout), line).Skip?
    ensures !LoopbackName(line) ==> Classify(Intended(layout), line) == Classify(layout, line)
  {
  }

  /**
   * On every table, the correction tallies exactly what the code tallies on
   * the same table with its loopback lines removed.
   */
  lemma {:induction false} IntendedIsDroppingLoopback(layout: Layout, lines: seq<string>, f: Filter)
    requires layout == Linux || layout == LegacyLinux
    ensures Sum(Intended(layout), lines, f) == Sum(layout, DropLoopback(lines), f)
  {
    if lines != [] {
      var init := lines[..|lines| - 1];
      var last := lines[|lines| - 1];
      IntendedIsDroppingLoopback(layout, init, f);
      IntendedRow(layout, last);
      assert Sum(Intended(layout), lines, f) == Step(Sum(Intended(layout), init, f), Classify(Intended(layout), last), f);
      if !LoopbackName(last) {
        SumSnoc(layout, DropLoopback(init), last, f);
      }
    }
  }

  /** The correction changes nothing on a table without a loopback line. */
  lemma IntendedDiffersOnlyOnLoopback(layout: Layout, lines: seq<string>, f: Filter)
    requires layout == Linux || layout == LegacyLinux
    requires forall k :: 0 <= k < |lines| ==> !LoopbackName(lines[k])
    ensures Sum(Intended(layout), lines, f) == Sum(layout, lines, f)
  {
    IntendedIsDroppingLoopback(layout, lines, f);
    DropLoopbackKeeps(lines);
  }
}
