/**
 * The formatter (`GetUnits`, `GetStatusLine`): the inclusive binary unit
 * ladder, the four-character magnitude with its trailing-dot rule, and the
 * rendered segment. Python's `str` of a float is left abstract as a
 * function `repr` that never returns the empty string.
 */
module Formatting {
  import opened PyText
  import opened Rates

  datatype Unit = B | KB | MB | GB

  function Rank(u: Unit): nat {
    match u
    case B => 0
    case KB => 1
    case MB => 2
    case GB => 3
  }

  /** The number a rate is divided by before it is printed. */
  function Divisor(u: Unit): real {
    match u
    case B => 1.0
    case KB => 1024.0
    case MB => 1048576.0
    case GB => 1073741824.0
  }

  /** The unit text; bytes carry a leading space so that every label is four characters wide. */
  function Label(u: Unit): (l: string)
    ensures |l| == 4
  {
    match u
    case B => " b/s"
    case KB => "KB/s"
    case MB => "MB/s"
    case GB => "GB/s"
  }

  /** The unit ladder: thresholds 1024^3, 1024^2, 1024, each inclusive. */
  function UnitFor(rate: real): (u: Unit)
    ensures u == B || Divisor(u) <= rate
    ensures u != GB ==> rate < 1024.0 * Divisor(u)
  {
    if rate >= 1073741824.0 then GB
    else if rate >= 1048576.0 then MB
    else if rate >= 1024.0 then KB
    else B
  }

  /** The chosen unit is the largest one whose divisor does not exceed the rate. */
  lemma UnitForIsLargestFitting(rate: real, u: Unit)
    requires u == B || Divisor(u) <= rate
    ensures Rank(u) <= Rank(UnitFor(rate))
  {
  }

  /** A larger rate never gets a smaller unit. */
  lemma UnitForMonotone(a: real, b: real)
    requires a <= b
    ensures Rank(UnitFor(a)) <= Rank(UnitFor(b))
  {
    UnitForIsLargestFitting(b, UnitFor(a));
  }

  /** The boundaries are inclusive: 1023 is bytes, 1024 is KB/s, 1048576 is MB/s, 1073741824 is GB/s. */
  lemma UnitBoundaries()
    ensures UnitFor(1023.0) == B && UnitFor(1024.0) == KB
    ensures UnitFor(1048575.0) == KB && UnitFor(1048576.0) == MB
    ensures UnitFor(1073741823.0) == MB && UnitFor(1073741824.0) == GB
  {
  }

  /** Above the byte range the printed value lies in [1, 1024), or is at least 1 for GB/s. */
  lemma ScaledRange(rate: real)
    requires rate >= 1024.0
    ensures 1.0 <= rate / Divisor(UnitFor(rate))
    ensures UnitFor(rate) != GB ==> rate / Divisor(UnitFor(rate)) < 1024.0
  {
    var d := Divisor(UnitFor(rate));
    assert d > 0.0 && d <= rate;
    if UnitFor(rate) != GB {
      assert rate < 1024.0 * d;
    }
  }

  /** `str(x)[0:4]` followed by replacing a final '.' with a space. */
  function Magnitude(text: string): (m: string)
    requires text != []
    ensures |m| == |Take(text, 4)|
    ensures 1 <= |m| <= 4
    ensures m[..|m| - 1] == text[..|m| - 1]
    ensures m[|m| - 1] != '.'
    ensures text[|m| - 1] != '.' ==> m[|m| - 1] == text[|m| - 1]
    ensures text[|m| - 1] == '.' ==> m[|m| - 1] == ' '
  {
    var t := Take(text, 4);
    if t[|t| - 1] == '.' then t[..|t| - 1] + " " else t
  }

  /** Python 2's `str` of a float, left abstract; it never prints the empty string. */
  ghost predicate ReprOk(repr: real -> string) {
    forall x :: repr(x) != []
  }

  /** What `GetUnits` writes for one rate: the magnitude text and the unit label. */
  datatype Shown = Shown(magnitude: string, units: string)

  function Humanize(c: Cell, repr: real -> string): (s: Shown)
    requires !c.Text? && ReprOk(repr)
    ensures |s.units| == 4 && 1 <= |s.magnitude| <= 4
    ensures s.magnitude[|s.magnitude| - 1] != '.'
    ensures c.IntZero? ==> s == Shown("0", " b/s")
    ensures c.Float? ==> s.units == Label(UnitFor(c.value))
  {
    match c
    case IntZero => Shown(Magnitude("0"), Label(B))
    case Float(r) =>
      var u := UnitFor(r);
      Shown(Magnitude(if u == B then repr(r) else repr(r / Divisor(u))), Label(u))
  }

  /**
   * The `GetUnits` loop body for one rate, as the code computes it: the
   * threshold ladder, the four-character cut and the trailing-dot fix.
   */
  method HumanizeRate(rate: Cell, repr: real -> string) returns (text: string, units: string)
    requires ReprOk(repr) && !rate.Text?
    ensures Shown(text, units) == Humanize(rate, repr)
  {
    if rate.IntZero? {
      units := " b/s";
      text := Take("0", 4);
    } else if rate.value >= 1073741824.0 {
      units := "GB/s";
      text := Take(repr(rate.value / 1073741824.0), 4);
    } else if rate.value >= 1048576.0 {
      units := "MB/s";
      text := Take(repr(rate.value / 1048576.0), 4);
    } else if rate.value >= 1024.0 {
      units := "KB/s";
      text := Take(repr(rate.value / 1024.0), 4);
    } else {
      units := " b/s";
      text := Take(repr(rate.value), 4);
    }
    if text[|text| - 1] == '.' {
      text := text[..|text| - 1] + " ";
    }
  }

  /**
   * An example: 1024 bytes received and none sent in one second show
   * as "1.0" KB/s and "0.0" b/s when `str` prints 1.0 and 0.0 as Python does.
   */
  lemma OneSecondExample(repr: real -> string)
    requires ReprOk(repr) && repr(1.0) == "1.0" && repr(0.0) == "0.0"
    ensures Humanize(Rate(Sample(1000, 500, 0.0), Sample(2024, 500, 1.0), Rx), repr) == Shown("1.0", "KB/s")
    ensures Humanize(Rate(Sample(1000, 500, 0.0), Sample(2024, 500, 1.0), Tx), repr) == Shown("0.0", " b/s")
  {
    assert Rate(Sample(1000, 500, 0.0), Sample(2024, 500, 1.0), Rx) == Float(1024.0);
    assert 1024.0 / 1024.0 == 1.0;
  }

  /** No elapsed time shows the integer 0 in bytes per second for both directions. */
  lemma ZeroElapsedShowsZero(prev: Sample, curr: Sample, d: Direction, repr: real -> string)
    requires ReprOk(repr) && curr.time == prev.time
    ensures Humanize(Rate(prev, curr, d), repr) == Shown("0", " b/s")
  {
  }

  /** One entry of the `rates` dictionary. */
  datatype Entry = Entry(icon: string, rate: Cell, units: string)

  const RxIcon := "↓"
  const TxIcon := "↑"

  const InitialRates := map[Rx := Entry(RxIcon, IntZero, ""), Tx := Entry(TxIcon, IntZero, "")]

  predicate WellFormed(rates: map<Direction, Entry>) {
    rates.Keys == {Rx, Tx} && rates[Rx].icon == RxIcon && rates[Tx].icon == TxIcon
  }

  predicate NoText(rates: map<Direction, Entry>) {
    forall d :: d in rates ==> !rates[d].rate.Text?
  }

  /** The dictionary after `GetRates`: every rate replaced, icons and units kept. */
  function WithRates(rates: map<Direction, Entry>, prev: Sample, curr: Sample): (r: map<Direction, Entry>)
    ensures r.Keys == rates.Keys && NoText(r)
    ensures forall d :: d in r ==> r[d].icon == rates[d].icon && r[d].units == rates[d].units
    ensures WellFormed(rates) ==> WellFormed(r)
  {
    map d | d in rates :: rates[d].(rate := Rate(prev, curr, d))
  }

  /** One entry after `GetUnits`: its rate replaced by the magnitude text, its units by the label. */
  function Humanized(e: Entry, repr: real -> string): (h: Entry)
    requires !e.rate.Text? && ReprOk(repr)
    ensures h.icon == e.icon && h.rate.Text? && |h.units| == 4 && 1 <= |h.rate.text| <= 4
  {
    var s := Humanize(e.rate, repr);
    e.(rate := Text(s.magnitude), units := s.units)
  }

  /** The dictionary after `GetUnits`: every entry humanized. */
  function WithUnits(rates: map<Direction, Entry>, repr: real -> string): (r: map<Direction, Entry>)
    requires NoText(rates) && ReprOk(repr)
    ensures r.Keys == rates.Keys
    ensures WellFormed(rates) ==> WellFormed(r)
    ensures forall d :: d in r ==> r[d].rate.Text? && |r[d].units| == 4 && 1 <= |r[d].rate.text| <= 4
  {
    map d | d in rates :: Humanized(rates[d], repr)
  }

  /** The dictionary part-way through the `GetRates` loop: the keys in `done` have their new rate. */
  function RatesDone(rates: map<Direction, Entry>, done: seq<Direction>, prev: Sample, curr: Sample): map<Direction, Entry> {
    map d | d in rates :: if d in done then rates[d].(rate := Rate(prev, curr, d)) else rates[d]
  }

  lemma RatesDoneStep(rates: map<Direction, Entry>, done: seq<Direction>, key: Direction, prev: Sample, curr: Sample)
    requires key in rates && key !in done
    ensures RatesDone(rates, done, prev, curr)[key] == rates[key]
    ensures RatesDone(rates, done + [key], prev, curr)
         == RatesDone(rates, done, prev, curr)[key := rates[key].(rate := Rate(prev, curr, key))]
  {
  }

  lemma RatesDoneAll(rates: map<Direction, Entry>, order: seq<Direction>, prev: Sample, curr: Sample)
    requires IsKeyOrder(order) && rates.Keys == {Rx, Tx}
    ensures RatesDone(rates, [], prev, curr) == rates
    ensures RatesDone(rates, order, prev, curr) == WithRates(rates, prev, curr)
  {
  }

  /** The dictionary part-way through the `GetUnits` loop: the keys in `done` are humanized. */
  function UnitsDone(rates: map<Direction, Entry>, done: seq<Direction>, repr: real -> string): map<Direction, Entry>
    requires NoText(rates) && ReprOk(repr)
  {
    map d | d in rates :: if d in done then Humanized(rates[d], repr) else rates[d]
  }

  lemma UnitsDoneStep(rates: map<Direction, Entry>, done: seq<Direction>, key: Direction, repr: real -> string)
    requires NoText(rates) && ReprOk(repr) && key in rates && key !in done
    ensures UnitsDone(rates, done, repr)[key] == rates[key]
    ensures UnitsDone(rates, done + [key], repr) == UnitsDone(rates, done, repr)[key := Humanized(rates[key], repr)]
  {
  }

  lemma UnitsDoneAll(rates: map<Direction, Entry>, order: seq<Direction>, repr: real -> string)
    requires NoText(rates) && ReprOk(repr) && IsKeyOrder(order) && rates.Keys == {Rx, Tx}
    ensures UnitsDone(rates, [], repr) == rates
    ensures UnitsDone(rates, order, repr) == WithUnits(rates, repr)
  {
  }

  /** `'%s' % value` of a stored rate. */
  function CellText(c: Cell, repr: real -> string): string {
    match c
    case IntZero => "0"
    case Float(x) => repr(x)
    case Text(t) => t
  }

  const Prefix := "#[fg=colour27,bg=colour0]\U{E0B2}#[bg=colour27]"
  const Suffix := "#[fg=colour0,bg=colour27]\U{E0B2}#[bg=colour0]"

  /** One direction's group: icon, rate and units, each behind its colour code, then a space. */
  function Group(e: Entry, repr: real -> string): string {
    "#[fg=colour249]" + e.icon + "#[fg=colour255]" + CellText(e.rate, repr) + "#[fg=colour249]" + e.units + " "
  }

  function Groups(order: seq<Direction>, rates: map<Direction, Entry>, repr: real -> string): string
    requires forall k :: 0 <= k < |order| ==> order[k] in rates
  {
    if order == [] then []
    else Groups(order[..|order| - 1], rates, repr) + Group(rates[order[|order| - 1]], repr)
  }

  /** The segment: the prefix and a space, one group per key in dictionary order, the suffix. */
  function Render(order: seq<Direction>, rates: map<Direction, Entry>, repr: real -> string): (line: string)
    requires forall k :: 0 <= k < |order| ==> order[k] in rates
    ensures Prefix + " " <= line
    ensures |line| >= |Prefix| + 1 + |Suffix| && line[|line| - |Suffix|..] == Suffix
  {
    Prefix + " " + Groups(order, rates, repr) + Suffix
  }

  /** With the two keys, the groups are exactly theirs, in key order. */
  lemma GroupsOfTwoKeys(order: seq<Direction>, rates: map<Direction, Entry>, repr: real -> string)
    requires IsKeyOrder(order) && rates.Keys == {Rx, Tx}
    ensures Groups(order, rates, repr) == Group(rates[order[0]], repr) + Group(rates[order[1]], repr)
  {
    var first := order[0];
    assert order[..1] == [first];
    assert [first][..0] == [];
    var g1 := Group(rates[first], repr);
    assert Groups([first], rates, repr) == [] + g1;
    assert [] + g1 == g1;
  }

  /** With the two keys, the segment holds exactly their two groups, in key order. */
  lemma RenderTwoGroups(order: seq<Direction>, rates: map<Direction, Entry>, repr: real -> string)
    requires IsKeyOrder(order) && rates.Keys == {Rx, Tx}
    ensures Render(order, rates, repr)
         == Prefix + " " + Group(rates[order[0]], repr) + Group(rates[order[1]], repr) + Suffix
  {
    GroupsOfTwoKeys(order, rates, repr);
  }

  /**
   * After `GetUnits` the segment has a fixed layout: its width depends only on
   * the two magnitudes, each one to four characters wide.
   */
  lemma RenderedWidth(order: seq<Direction>, rates: map<Direction, Entry>, repr: real -> string)
    requires IsKeyOrder(order) && WellFormed(rates)
    requires forall d :: d in rates ==> rates[d].rate.Text? && |rates[d].units| == 4
    ensures |Render(order, rates, repr)|
         == |Prefix| + 1 + |Suffix| + 2 * 51 + |rates[Rx].rate.text| + |rates[Tx].rate.text|
  {
    GroupsOfTwoKeys(order, rates, repr);
    GroupWidth(rates[Rx], repr);
    GroupWidth(rates[Tx], repr);
  }

  lemma GroupWidth(e: Entry, repr: real -> string)
    requires e.rate.Text? && |e.icon| == 1 && |e.units| == 4
    ensures |Group(e, repr)| == 51 + |e.rate.text|
  {
  }

  /** The `rates` dictionary after one full cycle from `prev` to `curr`. */
  function Cycle(rates: map<Direction, Entry>, prev: Sample, curr: Sample, repr: real -> string): map<Direction, Entry>
    requires ReprOk(repr)
  {
    WithUnits(WithRates(rates, prev, curr), repr)
  }
}
