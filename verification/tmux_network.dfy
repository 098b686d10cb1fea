/**
 * The current throughput monitor (modules/tmux_network.py): a `Network`
 * object holding the previous and current samples, the `rates` dictionary
 * and the configured interface. Each `Update` samples the counters, computes
 * the rates, humanizes them and renders the segment, handing the current
 * sample over as the previous one.
 *
 * What the host would answer is passed in: `osType` is `os.uname()[0]`,
 * and an `OsInput` carries netstat's output, the lines of /proc/net/dev and
 * the `time()` reading.
 */
module TmuxNetwork {
  import opened Wrappers
  import opened PyText
  import opened Sampling
  import opened Rates
  import opened Formatting

  /** One sampling pass: the interface setting afterwards, the loop's tally, the sample time. */
  datatype Reading = Reading(interface: string, tally: Tally, time: real)

  /** The `interface` entry of the network configuration, 'all' when absent. */
  function ConfiguredInterface(conf: map<string, string>): string {
    if "interface" in conf then conf["interface"] else "all"
  }

  /**
   * What `GetNetBytes` reads: netstat on Darwin, /proc/net/dev on Linux after
   * the fallback to 'all', and nothing at all (zero sums, time kept) elsewhere.
   */
  function ReadCounters(osType: string, interface: string, input: OsInput, lastTime: real): (r: Reading)
    ensures osType != "Linux" ==> r.interface == interface && !r.tally.crashed
    ensures osType != "Darwin" && osType != "Linux" ==> r == Reading(interface, Fresh, lastTime)
    ensures osType == "Darwin" || osType == "Linux" ==> r.time == input.now
  {
    if osType == "Darwin" then
      DarwinNeverCrashes(Split(input.netstat, '\n'), FilterOf(interface));
      Reading(interface, Sum(Darwin, Split(input.netstat, '\n'), FilterOf(interface)), input.now)
    else if osType == "Linux" then
      var setting := LinuxInterface(interface, input.procNetDev);
      Reading(setting, Sum(Linux, input.procNetDev, FilterOf(setting)), input.now)
    else
      Reading(interface, Fresh, lastTime)
  }

  class Network {
    const osType: string
    const keyOrder: seq<Direction>
    const repr: real -> string
    var interface: string
    var prevRx: int
    var prevTx: int
    var prevTime: real
    var currRx: int
    var currTx: int
    var currTime: real
    var rates: map<Direction, Entry>
    /** `self.status_line`, absent until the first complete cycle. */
    var statusLine: Option<string>

    ghost predicate Valid()
      reads this
    {
      IsKeyOrder(keyOrder) && ReprOk(repr) && WellFormed(rates)
    }

    function Prev(): Sample
      reads this
    {
      Sample(prevRx, prevTx, prevTime)
    }

    function Curr(): Sample
      reads this
    {
      Sample(currRx, currTx, currTime)
    }

    /** `__init__`: zero samples, the configured interface, then one `Update`. */
    constructor (osType: string, conf: map<string, string>, keyOrder: seq<Direction>,
                 repr: real -> string, input: OsInput)
      requires IsKeyOrder(keyOrder) && ReprOk(repr)
      ensures Valid()
      ensures this.osType == osType && this.keyOrder == keyOrder && this.repr == repr
      ensures var r := ReadCounters(osType, ConfiguredInterface(conf), input, 0.0);
              interface == r.interface && Curr() == Sample(r.tally.rx, r.tally.tx, r.time) &&
              (statusLine.None? <==> r.tally.crashed)
      ensures statusLine.None? ==> Prev() == ZeroSample && rates == InitialRates
      ensures statusLine.Some? ==>
                Prev() == Curr() && rates == Cycle(InitialRates, ZeroSample, Curr(), repr) &&
                statusLine == Some(Render(keyOrder, rates, repr))
    {
      this.osType := osType;
      this.keyOrder := keyOrder;
      this.repr := repr;
      if "interface" in conf {
        interface := conf["interface"];
      } else {
        interface := "all";
      }
      prevRx, prevTx, prevTime := 0, 0, 0.0;
      currRx, currTx, currTime := 0, 0, 0.0;
      rates := InitialRates;
      statusLine := None;
      new;
      assert Valid() && Prev() == ZeroSample && currTime == 0.0;
      var line := Update(input);
      assert line == statusLine;
    }

    /**
     * Resets both sums, then reads the counters of the host's platform.
     * `ok` is false when an IndexError escapes the Linux loop.
     */
    method GetNetBytes(input: OsInput) returns (ok: bool)
      modifies this`interface, this`currRx, this`currTx, this`currTime
      ensures var r := ReadCounters(osType, old(interface), input, old(currTime));
              interface == r.interface && Curr() == Sample(r.tally.rx, r.tally.tx, r.time) &&
              ok == !r.tally.crashed
    {
      currRx := 0;
      currTx := 0;
      ok := true;
      if osType == "Darwin" {
        var output := Split(input.netstat, '\n');
        currTime := input.now;
        SumNetstat(output);
      } else if osType == "Linux" {
        var output := input.procNetDev;
        currTime := input.now;
        if interface !in output {
          interface := "all";
        }
        ok := SumProcNetDev(output);
      }
    }

    /** The Darwin loop of `GetNetBytes`, over the lines of `netstat -nbi`. */
    method SumNetstat(lines: seq<string>)
      requires currRx == 0 && currTx == 0
      modifies this`currRx, this`currTx
      ensures var t := Sum(Darwin, lines, FilterOf(interface));
              currRx == t.rx && currTx == t.tx && !t.crashed
    {
      var interfaces: seq<string> := [];
      ghost var f := FilterOf(interface);
      for i := 0 to |lines|
        invariant Sum(Darwin, lines[..i], f) == Tally(currRx, currTx, interfaces, false)
      {
        assert lines[..i + 1] == lines[..i] + [lines[i]];
        SumSnoc(Darwin, lines[..i], lines[i], f);
        var data := Words(lines[i]);
        if |data| < 10 {
          continue;
        }
        if Contains(data[0], "lo") || Contains(data[0], "Name") {
          continue;
        }
        var name := data[0];
        if name != interface && interface != "all" {
          continue;
        }
        if name in interfaces {
          continue;
        }
        var rx := ParseInt(data[6]);
        if rx.None? {
          continue;
        }
        currRx := currRx + rx.value;
        var tx := ParseInt(data[9]);
        if tx.None? {
          continue;
        }
        currTx := currTx + tx.value;
        interfaces := interfaces + [name];
      }
      assert lines[..|lines|] == lines;
    }

    /**
     * The Linux loop of `GetNetBytes`, over the lines of /proc/net/dev;
     * `ok` is false when a line without tokens makes `data[0]` raise.
     */
    method SumProcNetDev(lines: seq<string>) returns (ok: bool)
      requires currRx == 0 && currTx == 0
      modifies this`currRx, this`currTx
      ensures var t := Sum(Linux, lines, FilterOf(interface));
              currRx == t.rx && currTx == t.tx && ok == !t.crashed
    {
      ok := true;
      var interfaces: seq<string> := [];
      ghost var f := FilterOf(interface);
      for i := 0 to |lines|
        invariant ok
        invariant Sum(Linux, lines[..i], f) == Tally(currRx, currTx, interfaces, false)
      {
        assert lines[..i + 1] == lines[..i] + [lines[i]];
        SumSnoc(Linux, lines[..i], lines[i], f);
        var data := Words(lines[i]);
        if "lo" in data || "Inter-" in data || "face" in data {
          continue;
        }
        if data == [] {
          // `data[0]` raises outside the try
          ok := false;
          CrashIsFinal(Linux, lines, i + 1, f);
          break;
        }
        var name := Split(data[0], ':')[0];
        if name != interface && interface != "all" {
          continue;
        }
        if name in interfaces {
          continue;
        }
        if |data| < 2 {
          continue;
        }
        var rx := ParseInt(data[1]);
        if rx.None? {
          continue;
        }
        currRx := currRx + rx.value;
        if |data| < 10 {
          continue;
        }
        var tx := ParseInt(data[9]);
        if tx.None? {
          continue;
        }
        currTx := currTx + tx.value;
        interfaces := interfaces + [name];
      }
      if ok {
        assert lines[..|lines|] == lines;
      }
    }

    /** Byte delta over time delta per direction; the integer 0 when the division raises. */
    method GetRates()
      requires Valid()
      modifies this`rates
      ensures Valid()
      ensures rates == WithRates(old(rates), Prev(), Curr())
    {
      var deltaTime := currTime - prevTime;
      for k := 0 to |keyOrder|
        invariant rates == RatesDone(old(rates), keyOrder[..k], Prev(), Curr())
      {
        var key := keyOrder[k];
        assert keyOrder[..k + 1] == keyOrder[..k] + [key];
        RatesDoneStep(old(rates), keyOrder[..k], key, Prev(), Curr());
        var rate: Cell;
        if deltaTime == 0.0 {
          rate := IntZero;
        } else {
          rate := Float((Counter(Curr(), key) - Counter(Prev(), key)) as real / deltaTime);
        }
        rates := rates[key := rates[key].(rate := rate)];
      }
      assert keyOrder[..|keyOrder|] == keyOrder;
      RatesDoneAll(old(rates), keyOrder, Prev(), Curr());
    }

    /** Replaces each rate by its humanized text and unit label. */
    method GetUnits()
      requires Valid() && NoText(rates)
      modifies this`rates
      ensures Valid()
      ensures rates == WithUnits(old(rates), repr)
    {
      for k := 0 to |keyOrder|
        invariant rates == UnitsDone(old(rates), keyOrder[..k], repr)
      {
        var key := keyOrder[k];
        assert keyOrder[..k + 1] == keyOrder[..k] + [key];
        UnitsDoneStep(old(rates), keyOrder[..k], key, repr);
        var text, units := HumanizeRate(rates[key].rate, repr);
        rates := rates[key := rates[key].(rate := Text(text), units := units)];
      }
      assert keyOrder[..|keyOrder|] == keyOrder;
      UnitsDoneAll(old(rates), keyOrder, repr);
    }

    /** Hands the current sample over as the previous one and renders the segment. */
    method GetStatusLine()
      requires Valid()
      modifies this`prevRx, this`prevTx, this`prevTime, this`statusLine
      ensures Prev() == Curr()
      ensures statusLine == Some(Render(keyOrder, rates, repr))
    {
      prevRx, prevTx, prevTime := currRx, currTx, currTime;
      var status := Prefix + " ";
      ghost var head := status;
      for k := 0 to |keyOrder|
        invariant Prev() == Curr()
        invariant status == head + Groups(keyOrder[..k], rates, repr)
      {
        var group := Group(rates[keyOrder[k]], repr);
        assert Groups(keyOrder[..k + 1], rates, repr) == Groups(keyOrder[..k], rates, repr) + group by {
          assert keyOrder[..k + 1][..k] == keyOrder[..k];
        }
        ConcatAssoc(head, Groups(keyOrder[..k], rates, repr), group);
        status := status + group;
      }
      assert keyOrder[..|keyOrder|] == keyOrder;
      status := status + Suffix;
      statusLine := Some(status);
    }

    /**
     * One cycle. Returns the new segment, or None when sampling raised, in
     * which case the rates, the previous sample and the last segment are untouched.
     */
    method Update(input: OsInput) returns (line: Option<string>)
      requires Valid()
      modifies this
      ensures Valid()
      ensures var r := ReadCounters(osType, old(interface), input, old(currTime));
              interface == r.interface && Curr() == Sample(r.tally.rx, r.tally.tx, r.time) &&
              (line.None? <==> r.tally.crashed)
      ensures line.None? ==> Prev() == old(Prev()) && rates == old(rates) && statusLine == old(statusLine)
      ensures line.Some? ==>
                Prev() == Curr() && rates == Cycle(old(rates), old(Prev()), Curr(), repr) &&
                line == statusLine && line == Some(Render(keyOrder, rates, repr))
    {
      var ok := GetNetBytes(input);
      if !ok {
        return None;
      }
      GetRates();
      GetUnits();
      GetStatusLine();
      return statusLine;
    }
  }
}
