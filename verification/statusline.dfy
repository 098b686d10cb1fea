/**
 * The older, self-contained throughput monitor (the `Network` class of
 * statusline.py): the same sampler, rate engine, formatter and render
 * pipeline as TmuxNetwork, without an interface filter. On Linux it keys
 * interfaces by the whole first token (colon included). The shared rate,
 * unit and rendering definitions are those of the Rates and Formatting
 * modules, which both copies of the class follow line for line.
 */
module LegacyStatusLine {
  import opened Wrappers
  import opened PyText
  import opened Sampling
  import opened Rates
  import opened Formatting
  import TmuxNetwork

  /** The platforms whose counters are read; any other `os.uname()[0]` reads nothing. */
  predicate Platform(osType: string) {
    osType == "Darwin" || osType == "Linux"
  }

  /** What `GetNetBytes` sums: every non-loopback interface once, or nothing on other platforms. */
  function ReadCounters(osType: string, input: OsInput): (t: Tally)
    ensures !Platform(osType) ==> t == Fresh
    ensures osType != "Linux" ==> !t.crashed
  {
    if osType == "Darwin" then
      DarwinNeverCrashes(Split(input.netstat, '\n'), Everything);
      Sum(Darwin, Split(input.netstat, '\n'), Everything)
    else if osType == "Linux" then Sum(LegacyLinux, input.procNetDev, Everything)
    else Fresh
  }

  /**
   * The legacy class reads what the current one reads with interface "all":
   * the same sums, failure and time, and on Linux the same list of counted
   * names up to stripping at ':', provided that stripping merges no two
   * interfaces (as on /proc/net/dev, see `KernelTableIsStripInjective`).
   */
  lemma SameAsAllInterfaces(osType: string, input: OsInput, lastTime: real)
    requires osType == "Linux" ==> StripInjective(input.procNetDev)
    ensures var r := TmuxNetwork.ReadCounters(osType, "all", input, lastTime);
            var t := ReadCounters(osType, input);
            r.interface == "all" && r.tally.rx == t.rx && r.tally.tx == t.tx && r.tally.crashed == t.crashed
    ensures TmuxNetwork.ReadCounters(osType, "all", input, lastTime).time == (if Platform(osType) then input.now else lastTime)
    ensures osType != "Linux" ==> TmuxNetwork.ReadCounters(osType, "all", input, lastTime).tally == ReadCounters(osType, input)
    ensures osType == "Linux" ==>
              TmuxNetwork.ReadCounters(osType, "all", input, lastTime).tally.seen == MapStrip(ReadCounters(osType, input).seen)
  {
    if osType == "Linux" {
      LegacyLinuxAgreesUpToColons(input.procNetDev);
    }
  }

  class Network {
    const osType: string
    const keyOrder: seq<Direction>
    const repr: real -> string
    var prevRx: int
    var prevTx: int
    var prevTime: real
    var currRx: int
    var currTx: int
    var currTime: real
    var rates: map<Direction, Entry>
    /** `self.status_line`, absent until the first complete cycle. */
    var statusLine: Option<string>

    ghost predicate Valid()
      reads this
    {
      IsKeyOrder(keyOrder) && ReprOk(repr) && WellFormed(rates)
    }

    function Prev(): Sample
      reads this
    {
      Sample(prevRx, prevTx, prevTime)
    }

    function Curr(): Sample
      reads this
    {
      Sample(currRx, currTx, currTime)
    }

    /** `__init__`: zero samples, then one `Update`. */
    constructor (osType: string, keyOrder: seq<Direction>, repr: real -> string, input: OsInput)
      requires IsKeyOrder(keyOrder) && ReprOk(repr)
      ensures Valid()
      ensures this.osType == osType && this.keyOrder == keyOrder && this.repr == repr
      ensures var t := ReadCounters(osType, input);
              Curr() == Sample(t.rx, t.tx, if Platform(osType) then input.now else 0.0) &&
              (statusLine.None? <==> t.crashed)
      ensures statusLine.None? ==> Prev() == ZeroSample && rates == InitialRates
      ensures statusLine.Some? ==>
                Prev() == Curr() && rates == Cycle(InitialRates, ZeroSample, Curr(), repr) &&
                statusLine == Some(Render(keyOrder, rates, repr))
    {
      this.osType := osType;
      this.keyOrder := keyOrder;
      this.repr := repr;
      prevRx, prevTx, prevTime := 0, 0, 0.0;
      currRx, currTx, currTime := 0, 0, 0.0;
      rates := InitialRates;
      statusLine := None;
      new;
      assert Valid() && Prev() == ZeroSample && currTime == 0.0;
      var line := Update(input);
      assert line == statusLine;
    }

    /**
     * Resets both sums, then reads the counters of the host's platform.
     * `ok` is false when an IndexError escapes the Linux loop.
     */
    method GetNetBytes(input: OsInput) returns (ok: bool)
      modifies this`currRx, this`currTx, this`currTime
      ensures var t := ReadCounters(osType, input);
              Curr() == Sample(t.rx, t.tx, if Platform(osType) then input.now else old(currTime)) &&
              ok == !t.crashed
    {
      currRx := 0;
      currTx := 0;
      ok := true;
      if osType == "Darwin" {
        var output := Split(input.netstat, '\n');
        currTime := input.now;
        SumNetstat(output);
      } else if osType == "Linux" {
        var output := input.procNetDev;
        currTime := input.now;
        ok := SumProcNetDev(output);
      }
    }

    /** The Darwin loop of `GetNetBytes`, over the lines of `netstat -nbi`. */
    method SumNetstat(lines: seq<string>)
      requires currRx == 0 && currTx == 0
      modifies this`currRx, this`currTx
      ensures var t := Sum(Darwin, lines, Everything);
              currRx == t.rx && currTx == t.tx && !t.crashed
    {
      var interfaces: seq<string> := [];
      for i := 0 to |lines|
        invariant Sum(Darwin, lines[..i], Everything) == Tally(currRx, currTx, interfaces, false)
      {
        assert lines[..i + 1] == lines[..i] + [lines[i]];
        SumSnoc(Darwin, lines[..i], lines[i], Everything);
        var data := Words(lines[i]);
        if |data| < 10 {
          continue;
        }
        if Contains(data[0], "lo") || Contains(data[0], "Name") {
          continue;
        }
        var name := data[0];
        if name in interfaces {
          continue;
        }
        var rx := ParseInt(data[6]);
        if rx.None? {
          continue;
        }
        currRx := currRx + rx.value;
        var tx := ParseInt(data[9]);
        if tx.None? {
          continue;
        }
        currTx := currTx + tx.value;
        interfaces := interfaces + [name];
      }
      assert lines[..|lines|] == lines;
    }

    /**
     * The Linux loop of `GetNetBytes`, over the lines of /proc/net/dev, keyed
     * by the whole first token; `ok` is false when a line without tokens makes
     * `data[0]` raise.
     */
    method SumProcNetDev(lines: seq<string>) returns (ok: bool)
      requires currRx == 0 && currTx == 0
      modifies this`currRx, this`currTx
      ensures var t := Sum(LegacyLinux, lines, Everything);
              currRx == t.rx && currTx == t.tx && ok == !t.crashed
    {
      ok := true;
      var interfaces: seq<string> := [];
      for i := 0 to |lines|
        invariant ok
        invariant Sum(LegacyLinux, lines[..i], Everything) == Tally(currRx, currTx, interfaces, false)
      {
        assert lines[..i + 1] == lines[..i] + [lines[i]];
        SumSnoc(LegacyLinux, lines[..i], lines[i], Everything);
        var data := Words(lines[i]);
        if "lo" in data || "Inter-" in data || "face" in data {
          continue;
        }
        if data == [] {
          // `data[0]` raises outside the try
          ok := false;
          CrashIsFinal(LegacyLinux, lines, i + 1, Everything);
          break;
        }
        var name := data[0];
        if name in interfaces {
          continue;
        }
        if |data| < 2 {
          continue;
        }
        var rx := ParseInt(data[1]);
        if rx.None? {
          continue;
        }
        currRx := currRx + rx.value;
        if |data| < 10 {
          continue;
        }
        var tx := ParseInt(data[9]);
        if tx.None? {
          continue;
        }
        currTx := currTx + tx.value;
        interfaces := interfaces + [name];
      }
      if ok {
        assert lines[..|lines|] == lines;
      }
    }

    /** Byte delta over time delta per direction; the integer 0 when the division raises. */
    method GetRates()
      requires Valid()
      modifies this`rates
      ensures Valid()
      ensures rates == WithRates(old(rates), Prev(), Curr())
    {
      var deltaTime := currTime - prevTime;
      for k := 0 to |keyOrder|
        invariant rates == RatesDone(old(rates), keyOrder[..k], Prev(), Curr())
      {
        var key := keyOrder[k];
        assert keyOrder[..k + 1] == keyOrder[..k] + [key];
        RatesDoneStep(old(rates), keyOrder[..k], key, Prev(), Curr());
        var rate: Cell;
        if deltaTime == 0.0 {
          rate := IntZero;
        } else {
          rate := Float((Counter(Curr(), key) - Counter(Prev(), key)) as real / deltaTime);
        }
        rates := rates[key := rates[key].(rate := rate)];
      }
      assert keyOrder[..|keyOrder|] == keyOrder;
      RatesDoneAll(old(rates), keyOrder, Prev(), Curr());
    }

    /** Replaces each rate by its humanized text and unit label. */
    method GetUnits()
      requires Valid() && NoText(rates)
      modifies this`rates
      ensures Valid()
      ensures rates == WithUnits(old(rates), repr)
    {
      for k := 0 to |keyOrder|
        invariant rates == UnitsDone(old(rates), keyOrder[..k], repr)
      {
        var key := keyOrder[k];
        assert keyOrder[..k + 1] == keyOrder[..k] + [key];
        UnitsDoneStep(old(rates), keyOrder[..k], key, repr);
        var text, units := HumanizeRate(rates[key].rate, repr);
        rates := rates[key := rates[key].(rate := Text(text), units := units)];
      }
      assert keyOrder[..|keyOrder|] == keyOrder;
      UnitsDoneAll(old(rates), keyOrder, repr);
    }

    /** Hands the current sample over as the previous one and renders the segment. */
    method GetStatusLine()
      requires Valid()
      modifies this`prevRx, this`prevTx, this`prevTime, this`statusLine
      ensures Prev() == Curr()
      ensures statusLine == Some(Render(keyOrder, rates, repr))
    {
      prevRx, prevTx, prevTime := currRx, currTx, currTime;
      var status := Prefix + " ";
      ghost var head := status;
      for k := 0 to |keyOrder|
        invariant Prev() == Curr()
        invariant status == head + Groups(keyOrder[..k], rates, repr)
      {
        var group := Group(rates[keyOrder[k]], repr);
        assert Groups(keyOrder[..k + 1], rates, repr) == Groups(keyOrder[..k], rates, repr) + group by {
          assert keyOrder[..k + 1][..k] == keyOrder[..k];
        }
        ConcatAssoc(head, Groups(keyOrder[..k], rates, repr), group);
        status := status + group;
      }
      assert keyOrder[..|keyOrder|] == keyOrder;
      status := status + Suffix;
      statusLine := Some(status);
    }

    /**
     * One cycle. Returns the new segment, or None when sampling raised, in
     * which case the rates, the previous sample and the last segment are untouched.
     */
    method Update(input: OsInput) returns (line: Option<string>)
      requires Valid()
      modifies this
      ensures Valid()
      ensures var t := ReadCounters(osType, input);
              Curr() == Sample(t.rx, t.tx, if Platform(osType) then input.now else old(currTime)) &&
              (line.None? <==> t.crashed)
      ensures line.None? ==> Prev() == old(Prev()) && rates == old(rates) && statusLine == old(statusLine)
      ensures line.Some? ==>
                Prev() == Curr() && rates == Cycle(old(rates), old(Prev()), Curr(), repr) &&
                line == statusLine && line == Some(Render(keyOrder, rates, repr))
    {
      var ok := GetNetBytes(input);
      if !ok {
        return None;
      }
      GetRates();
      GetUnits();
      GetStatusLine();
      return statusLine;
    }
  }
}
