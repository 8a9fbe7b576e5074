/**
 * The substation meter (tests/sim_substation_meter.c): a mirror of the device
 * registers and two totals kept up to date register by register. Scanned lines
 * are parsed records, floats are reals, and notifications to the controller are
 * not modelled.
 */
module Meter {
  const NUM_REGISTERS := 30
  const CURRENT_TOTAL := 10
  const VOLTAGE_TOTAL := 26

  datatype Line = CurrentHeader | VoltageHeader | Entry(address: int, value: real) | Other

  /** The register mirror and the two totals. */
  datatype Readings = Readings(cells: seq<real>, current: real, voltage: real)

  function Cell(address: int): int {
    if address >= 3000 then address - 3000 else address
  }

  /** The line names a register the meter keeps. */
  predicate Names(line: Line) {
    line.Entry? && Cell(line.address) < NUM_REGISTERS
  }

  /** The source's range check lets address 30 and negative ones through; a file that holds none is safe. */
  predicate SafeLine(line: Line) {
    line.Entry? ==> 0 <= Cell(line.address) && Cell(line.address) != NUM_REGISTERS
  }

  /**
   * An address that passes the source's check `address > NUM_REGISTERS` is a
   * register of the mirror if and only if its line is safe; 3030 passes and is not.
   */
  lemma AdmittedInBounds(line: Line)
    requires line.Entry? && Cell(line.address) <= NUM_REGISTERS
    ensures 0 <= Cell(line.address) < NUM_REGISTERS <==> SafeLine(line)
    ensures Cell(3030) <= NUM_REGISTERS && !SafeLine(Entry(3030, 0.0))
  {
  }

  predicate Safe(lines: seq<Line>) {
    forall k :: 0 <= k < |lines| ==> SafeLine(lines[k])
  }

  /** `currentOrVoltage` after the first `k` lines. */
  function InCurrent(lines: seq<Line>, k: nat): bool
    requires k <= |lines|
  {
    if k == 0 then false
    else
      match lines[k - 1]
      case CurrentHeader => true
      case VoltageHeader => false
      case _ => InCurrent(lines, k - 1)
  }

  /** Line `k` stands below a current header, with no voltage header between them. */
  ghost predicate BelowCurrentHeader(lines: seq<Line>, k: nat)
    requires k <= |lines|
  {
    exists j :: 0 <= j < k && lines[j] == CurrentHeader && forall i :: j < i < k ==> lines[i] != VoltageHeader
  }

  /** The flag the loops carry along says just that. */
  lemma {:induction false} SectionOf(lines: seq<Line>, k: nat)
    requires k <= |lines|
    ensures InCurrent(lines, k) <==> BelowCurrentHeader(lines, k)
  {
    if k > 0 {
      SectionOf(lines, k - 1);
      if lines[k - 1] == CurrentHeader {
        assert lines[k - 1] == CurrentHeader;
      } else if InCurrent(lines, k) {
        var j :| 0 <= j < k - 1 && lines[j] == CurrentHeader && forall i :: j < i < k - 1 ==> lines[i] != VoltageHeader;
        assert forall i :: j < i < k ==> lines[i] != VoltageHeader;
      }
    }
  }

  function Signed(isImport: bool, v: real): real {
    if isImport then -v else v
  }

  function Charge(r: Readings, current: bool, d: real): Readings {
    if current then r.(current := r.current + d) else r.(voltage := r.voltage + d)
  }

  function WithTotals(r: Readings): Readings
    requires |r.cells| == NUM_REGISTERS
  {
    r.(cells := r.cells[CURRENT_TOTAL := r.current][VOLTAGE_TOTAL := r.voltage])
  }

  function InitLine(r: Readings, line: Line, isImport: bool, current: bool): (t: Readings)
    requires |r.cells| == NUM_REGISTERS && SafeLine(line)
    ensures |t.cells| == NUM_REGISTERS
  {
    if !Names(line) then r
    else Charge(r.(cells := r.cells[Cell(line.address) := line.value]), current, Signed(isImport, line.value))
  }

  function CheckLine(r: Readings, line: Line, isImport: bool, current: bool, connected: bool): (t: Readings)
    requires |r.cells| == NUM_REGISTERS && SafeLine(line)
    ensures |t.cells| == NUM_REGISTERS
  {
    if !Names(line) || r.cells[Cell(line.address)] == line.value then r
    else
      var a := Cell(line.address);
      var s := Charge(r.(cells := r.cells[a := line.value]), current,
                      Signed(isImport, line.value) - Signed(isImport, r.cells[a]));
      if connected then WithTotals(s) else s
  }

  function InitLines(r: Readings, lines: seq<Line>, isImport: bool, k: nat): (t: Readings)
    requires |r.cells| == NUM_REGISTERS && Safe(lines) && k <= |lines|
    ensures |t.cells| == NUM_REGISTERS
  {
    if k == 0 then r
    else InitLine(InitLines(r, lines, isImport, k - 1), lines[k - 1], isImport, InCurrent(lines, k - 1))
  }

  function CheckLines(r: Readings, lines: seq<Line>, isImport: bool, connected: bool, k: nat): (t: Readings)
    requires |r.cells| == NUM_REGISTERS && Safe(lines) && k <= |lines|
    ensures |t.cells| == NUM_REGISTERS
  {
    if k == 0 then r
    else
      CheckLine(CheckLines(r, lines, isImport, connected, k - 1), lines[k - 1], isImport, InCurrent(lines, k - 1),
                connected)
  }

  // ---------------------------------------------------------------- the program

  class SubstationMeter {
    const prevValues: array<real>
    var totalCurrent: real
    var totalVoltage: real

    constructor ()
      ensures prevValues.Length == NUM_REGISTERS && fresh(prevValues) && View() == NoReadings()
    {
      prevValues := new real[NUM_REGISTERS](_ => 0.0);
      totalCurrent, totalVoltage := 0.0, 0.0;
      new;
      assert prevValues[..] == NoReadings().cells;
    }

    ghost function View(): Readings
      reads this, prevValues
    {
      Readings(prevValues[..], totalCurrent, totalVoltage)
    }

    /** `initialize_registers`; a file that cannot be opened is one without lines. */
    method InitializeRegisters(lines: seq<Line>, isImport: bool)
      requires prevValues.Length == NUM_REGISTERS && Safe(lines)
      modifies this, prevValues
      ensures View() == InitLines(old(View()), lines, isImport, |lines|)
    {
      var currentOrVoltage := false;
      for i := 0 to |lines|
        invariant currentOrVoltage == InCurrent(lines, i)
        invariant View() == InitLines(old(View()), lines, isImport, i)
      {
        var line := lines[i];
        assert SafeLine(line);
        match line
        case CurrentHeader => currentOrVoltage := true;
        case VoltageHeader => currentOrVoltage := false;
        case Other =>
        case Entry(address, value) => {
          var a := Cell(address);
          if a <= NUM_REGISTERS {
            prevValues[a] := value;
            if isImport {
              if currentOrVoltage {
                totalCurrent := totalCurrent - value;
              } else {
                totalVoltage := totalVoltage - value;
              }
            } else {
              if currentOrVoltage {
                totalCurrent := totalCurrent + value;
              } else {
                totalVoltage := totalVoltage + value;
              }
            }
          }
        }
      }
    }

    /** `check_file_and_notify`. */
    method CheckFileAndNotify(lines: seq<Line>, isImport: bool, connected: bool)
      requires prevValues.Length == NUM_REGISTERS && Safe(lines)
      modifies this, prevValues
      ensures View() == CheckLines(old(View()), lines, isImport, connected, |lines|)
    {
      var currentOrVoltage := false;
      for i := 0 to |lines|
        invariant currentOrVoltage == InCurrent(lines, i)
        invariant View() == CheckLines(old(View()), lines, isImport, connected, i)
      {
        var line := lines[i];
        assert SafeLine(line);
        match line
        case CurrentHeader => currentOrVoltage := true;
        case VoltageHeader => currentOrVoltage := false;
        case Other =>
        case Entry(address, value) => {
          var a := Cell(address);
          if a <= NUM_REGISTERS && prevValues[a] != value {
            if isImport {
              if currentOrVoltage {
                totalCurrent := totalCurrent + prevValues[a] - value;
              } else {
                totalVoltage := totalVoltage + prevValues[a] - value;
              }
            } else {
              if currentOrVoltage {
                totalCurrent := totalCurrent - prevValues[a] + value;
              } else {
                totalVoltage := totalVoltage - prevValues[a] + value;
              }
            }
            prevValues[a] := value;
            if connected {
              UpdateTotalValue();
            }
          }
        }
      }
    }

    /** `updateTotalValue`. */
    method UpdateTotalValue()
      requires prevValues.Length == NUM_REGISTERS
      modifies prevValues
      ensures View() == WithTotals(old(View()))
    {
      prevValues[CURRENT_TOTAL] := totalCurrent;
      prevValues[VOLTAGE_TOTAL] := totalVoltage;
    }
  }

  function NoReadings(): (r: Readings)
    ensures |r.cells| == NUM_REGISTERS
  {
    Readings(seq(NUM_REGISTERS, _ => 0.0), 0.0, 0.0)
  }

  // ---------------------------------------------------------------- the totals, recomputed

  /** Whose register a cell is: an importing or exporting device's, a current or a voltage. */
  datatype Kind = Free | Owned(isImport: bool, current: bool)

  /** The signed sum of the first `n` cells that hold a current (or a voltage). */
  function Total(owner: seq<Kind>, cells: seq<real>, current: bool, n: nat): real
    requires n <= |owner| && n <= |cells|
  {
    if n == 0 then 0.0
    else
      Total(owner, cells, current, n - 1) +
      if owner[n - 1].Owned? && owner[n - 1].current == current
      then Signed(owner[n - 1].isImport, cells[n - 1]) else 0.0
  }

  /** What the importing (or the exporting) devices' currents (or voltages) among the first `n` cells add up to. */
  function Sum(owner: seq<Kind>, cells: seq<real>, isImport: bool, current: bool, n: nat): real
    requires n <= |owner| && n <= |cells|
  {
    if n == 0 then 0.0
    else
      Sum(owner, cells, isImport, current, n - 1) +
      if owner[n - 1] == Owned(isImport, current) then cells[n - 1] else 0.0
  }

  lemma {:induction false} TotalIsDifference(owner: seq<Kind>, cells: seq<real>, current: bool, n: nat)
    requires n <= |owner| && n <= |cells|
    ensures Total(owner, cells, current, n)
         == Sum(owner, cells, false, current, n) - Sum(owner, cells, true, current, n)
  {
    if n > 0 {
      TotalIsDifference(owner, cells, current, n - 1);
    }
  }

  predicate Ownership(owner: seq<Kind>) {
    |owner| == NUM_REGISTERS && owner[CURRENT_TOTAL].Free? && owner[VOLTAGE_TOTAL].Free?
  }

  /** Both totals are the signed sums of the mirror. */
  predicate Balanced(owner: seq<Kind>, r: Readings)
    requires |owner| == |r.cells| == NUM_REGISTERS
  {
    && r.current == Total(owner, r.cells, true, NUM_REGISTERS)
    && r.voltage == Total(owner, r.cells, false, NUM_REGISTERS)
  }

  predicate Mirrored(r: Readings)
    requires |r.cells| == NUM_REGISTERS
  {
    r.cells[CURRENT_TOTAL] == r.current && r.cells[VOLTAGE_TOTAL] == r.voltage
  }

  /** Every register a file names belongs to that kind of file and to the section it stands in. */
  ghost predicate ConformsAt(owner: seq<Kind>, lines: seq<Line>, isImport: bool, k: nat)
    requires |owner| == NUM_REGISTERS && k < |lines|
  {
    && SafeLine(lines[k])
    && (Names(lines[k]) ==> owner[Cell(lines[k].address)] == Owned(isImport, BelowCurrentHeader(lines, k)))
  }

  ghost predicate Conforms(owner: seq<Kind>, lines: seq<Line>, isImport: bool)
    requires |owner| == NUM_REGISTERS
  {
    Safe(lines) && forall k :: 0 <= k < |lines| ==> ConformsAt(owner, lines, isImport, k)
  }

  lemma {:induction false} TotalUpdate(owner: seq<Kind>, cells: seq<real>, a: nat, v: real, current: bool, n: nat)
    requires a < |cells| && n <= |owner| && n <= |cells|
    ensures Total(owner, cells[a := v], current, n) == Total(owner, cells, current, n) +
      if a < n && owner[a].Owned? && owner[a].current == current
      then Signed(owner[a].isImport, v) - Signed(owner[a].isImport, cells[a]) else 0.0
  {
    if n > 0 {
      TotalUpdate(owner, cells, a, v, current, n - 1);
    }
  }

  /** Storing one register and charging the difference keeps the balance. */
  lemma StoreBalanced(owner: seq<Kind>, r: Readings, a: nat, v: real, isImport: bool, current: bool)
    requires |r.cells| == |owner| == NUM_REGISTERS && a < NUM_REGISTERS && owner[a] == Owned(isImport, current)
    requires Balanced(owner, r)
    ensures Balanced(owner, Charge(r.(cells := r.cells[a := v]), current,
                                   Signed(isImport, v) - Signed(isImport, r.cells[a])))
  {
    hide Total;
    TotalUpdate(owner, r.cells, a, v, true, NUM_REGISTERS);
    TotalUpdate(owner, r.cells, a, v, false, NUM_REGISTERS);
  }

  /** By how much a cell of that kind moves its total when `v` takes the place of `was`. */
  function Shift(kind: Kind, was: real, v: real): real {
    if kind.Free? then 0.0 else Signed(kind.isImport, v) - Signed(kind.isImport, was)
  }

  /**
   * Storing `current` and `voltage` over `first` and `second` in cells 10 and 26
   * changes no device register, or changes two of one section by amounts that cancel.
   */
  predicate Publishable(owner: seq<Kind>, first: real, second: real, current: real, voltage: real)
    requires |owner| == NUM_REGISTERS
  {
    var k, l := owner[CURRENT_TOTAL], owner[VOLTAGE_TOTAL];
    if k.Owned? && l.Owned? && k.current == l.current
    then Shift(k, first, current) + Shift(l, second, voltage) == 0.0
    else Shift(k, first, current) == 0.0 && Shift(l, second, voltage) == 0.0
  }

  /**
   * Publishing the totals in cells 10 and 26 keeps the sums if and only if no
   * device register there is changed by it; when both cells hold registers of
   * the same section the two changes may also cancel.
   */
  lemma TotalsExact(owner: seq<Kind>, r: Readings)
    requires |r.cells| == |owner| == NUM_REGISTERS && Balanced(owner, r)
    ensures Mirrored(WithTotals(r))
    ensures Balanced(owner, WithTotals(r)) <==>
      Publishable(owner, r.cells[CURRENT_TOTAL], r.cells[VOLTAGE_TOTAL], r.current, r.voltage)
  {
    hide Total;
    var once := r.cells[CURRENT_TOTAL := r.current];
    TotalUpdate(owner, r.cells, CURRENT_TOTAL, r.current, true, NUM_REGISTERS);
    TotalUpdate(owner, r.cells, CURRENT_TOTAL, r.current, false, NUM_REGISTERS);
    TotalUpdate(owner, once, VOLTAGE_TOTAL, r.voltage, true, NUM_REGISTERS);
    TotalUpdate(owner, once, VOLTAGE_TOTAL, r.voltage, false, NUM_REGISTERS);
  }

  /** One device register at a total's cell: the sums survive if and only if it shows the total already. */
  lemma OneTotalCell(owner: seq<Kind>, r: Readings)
    requires |r.cells| == |owner| == NUM_REGISTERS && Balanced(owner, r)
    ensures owner[VOLTAGE_TOTAL].Free? ==>
      (Balanced(owner, WithTotals(r)) <==> owner[CURRENT_TOTAL].Free? || r.cells[CURRENT_TOTAL] == r.current)
    ensures owner[CURRENT_TOTAL].Free? ==>
      (Balanced(owner, WithTotals(r)) <==> owner[VOLTAGE_TOTAL].Free? || r.cells[VOLTAGE_TOTAL] == r.voltage)
  {
    hide Balanced, WithTotals;
    TotalsExact(owner, r);
  }

  /** Publishing the totals in cells of their own does not disturb the sums. */
  lemma TotalsBalanced(owner: seq<Kind>, r: Readings)
    requires |r.cells| == NUM_REGISTERS && Ownership(owner) && Balanced(owner, r)
    ensures Balanced(owner, WithTotals(r)) && Mirrored(WithTotals(r))
  {
    hide Balanced, WithTotals, Mirrored;
    TotalsExact(owner, r);
  }

  /**
   * A scanned line keeps the sums if and only if it changes nothing, or the totals
   * it leads to can be published over what cells 10 and 26 then hold.
   */
  lemma CheckLineExact(owner: seq<Kind>, r: Readings, line: Line, isImport: bool, current: bool)
    requires |r.cells| == |owner| == NUM_REGISTERS && Balanced(owner, r) && SafeLine(line)
    requires Names(line) ==> owner[Cell(line.address)] == Owned(isImport, current)
    ensures Balanced(owner, CheckLine(r, line, isImport, current, true)) <==>
      !Names(line) || r.cells[Cell(line.address)] == line.value ||
      var a, v := Cell(line.address), line.value;
      var d := Signed(isImport, v) - Signed(isImport, r.cells[a]);
      Publishable(owner,
                  if a == CURRENT_TOTAL then v else r.cells[CURRENT_TOTAL],
                  if a == VOLTAGE_TOTAL then v else r.cells[VOLTAGE_TOTAL],
                  if current then r.current + d else r.current,
                  if current then r.voltage else r.voltage + d)
  {
    hide Balanced, WithTotals, Publishable;
    if Names(line) && r.cells[Cell(line.address)] != line.value {
      StoreBalanced(owner, r, Cell(line.address), line.value, isImport, current);
      TotalsExact(owner, CheckLine(r, line, isImport, current, false));
    }
  }

  // ---------------------------------------------------------------- initialisation

  /** An initialising line keeps the balance if and only if the register it stores held zero. */
  lemma InitLineExact(owner: seq<Kind>, r: Readings, line: Line, isImport: bool, current: bool)
    requires |r.cells| == |owner| == NUM_REGISTERS && Balanced(owner, r) && SafeLine(line) && Names(line)
    requires owner[Cell(line.address)] == Owned(isImport, current)
    ensures Balanced(owner, InitLine(r, line, isImport, current)) <==> r.cells[Cell(line.address)] == 0.0
  {
    hide Total;
    var a := Cell(line.address);
    TotalUpdate(owner, r.cells, a, line.value, true, NUM_REGISTERS);
    TotalUpdate(owner, r.cells, a, line.value, false, NUM_REGISTERS);
  }

  /** The registers named by the first `k` lines. */
  function Named(lines: seq<Line>, k: nat): set<int>
    requires k <= |lines|
  {
    if k == 0 then {} else Named(lines, k - 1) + if Names(lines[k - 1]) then {Cell(lines[k - 1].address)} else {}
  }

  /** No register is named twice, nor one of those in `before`. */
  predicate OnceAt(lines: seq<Line>, before: set<int>, k: nat)
    requires k < |lines|
  {
    Names(lines[k]) ==> Cell(lines[k].address) !in before + Named(lines, k)
  }

  predicate Once(lines: seq<Line>, before: set<int>) {
    forall k :: 0 <= k < |lines| ==> OnceAt(lines, before, k)
  }

  /** The registers not yet named hold zero. */
  predicate Untouched(r: Readings, named: set<int>) {
    forall a :: 0 <= a < |r.cells| && a !in named ==> r.cells[a] == 0.0
  }

  lemma {:induction false} InitBalanced(owner: seq<Kind>, r: Readings, lines: seq<Line>, isImport: bool,
                                        before: set<int>, k: nat)
    requires Ownership(owner) && |r.cells| == NUM_REGISTERS && k <= |lines|
    requires Conforms(owner, lines, isImport) && Once(lines, before)
    requires Balanced(owner, r) && Untouched(r, before)
    ensures Balanced(owner, InitLines(r, lines, isImport, k))
    ensures Untouched(InitLines(r, lines, isImport, k), before + Named(lines, k))
  {
    hide Balanced, Charge, BelowCurrentHeader;
    if k > 0 {
      InitBalanced(owner, r, lines, isImport, before, k - 1);
      assert ConformsAt(owner, lines, isImport, k - 1) && OnceAt(lines, before, k - 1) && SafeLine(lines[k - 1]);
      SectionOf(lines, k - 1);
      var s := InitLines(r, lines, isImport, k - 1);
      if Names(lines[k - 1]) {
        InitLineExact(owner, s, lines[k - 1], isImport, InCurrent(lines, k - 1));
        ChargeKeepsCells(s.(cells := s.cells[Cell(lines[k - 1].address) := lines[k - 1].value]),
                         InCurrent(lines, k - 1), Signed(isImport, lines[k - 1].value));
      }
    }
  }

  lemma ChargeKeepsCells(r: Readings, current: bool, d: real)
    ensures Charge(r, current, d).cells == r.cells
  {
  }

  /** A register named twice is counted twice: the total is then wrong. */
  lemma NamedTwiceExample(owner: seq<Kind>)
    requires Ownership(owner) && owner[0] == Owned(false, false)
    ensures var lines := [Entry(3000, 1.0), Entry(3000, 2.0)];
      Conforms(owner, lines, false) && !Balanced(owner, InitLines(NoReadings(), lines, false, 2))
  {
    hide Balanced;
    var lines := [Entry(3000, 1.0), Entry(3000, 2.0)];
    assert Conforms(owner, lines, false) by {
      SectionOf(lines, 0);
      SectionOf(lines, 1);
      assert !InCurrent(lines, 0) && !InCurrent(lines, 1);
    }
    NoReadingsBalanced(owner);
    var one := InitLines(NoReadings(), lines, false, 1);
    assert one == InitLine(NoReadings(), lines[0], false, false);
    InitLineExact(owner, NoReadings(), lines[0], false, false);
    assert one.cells[0] == 1.0;
    InitLineExact(owner, one, lines[1], false, false);
  }

  lemma NoReadingsBalanced(owner: seq<Kind>)
    requires |owner| == NUM_REGISTERS
    ensures Balanced(owner, NoReadings())
  {
    ZeroTotal(owner, true, NUM_REGISTERS);
    ZeroTotal(owner, false, NUM_REGISTERS);
  }

  lemma {:induction false} ZeroTotal(owner: seq<Kind>, current: bool, n: nat)
    requires n <= |owner| && n <= NUM_REGISTERS
    ensures Total(owner, NoReadings().cells, current, n) == 0.0
  {
    if n > 0 {
      ZeroTotal(owner, current, n - 1);
    }
  }

  // ---------------------------------------------------------------- scans

  lemma {:induction false} CheckBalanced(owner: seq<Kind>, r: Readings, lines: seq<Line>, isImport: bool,
                                         connected: bool, k: nat)
    requires Ownership(owner) && |r.cells| == NUM_REGISTERS && k <= |lines|
    requires Conforms(owner, lines, isImport) && Balanced(owner, r)
    ensures Balanced(owner, CheckLines(r, lines, isImport, connected, k))
    ensures connected && Mirrored(r) ==> Mirrored(CheckLines(r, lines, isImport, connected, k))
  {
    hide Balanced, Charge, WithTotals, Mirrored, BelowCurrentHeader;
    if k > 0 {
      CheckBalanced(owner, r, lines, isImport, connected, k - 1);
      assert ConformsAt(owner, lines, isImport, k - 1) && SafeLine(lines[k - 1]);
      SectionOf(lines, k - 1);
      var s := CheckLines(r, lines, isImport, connected, k - 1);
      var current := InCurrent(lines, k - 1);
      if Names(lines[k - 1]) {
        var a, v := Cell(lines[k - 1].address), lines[k - 1].value;
        var d := Signed(isImport, v) - Signed(isImport, s.cells[a]);
        StoreBalanced(owner, s, a, v, isImport, current);
        ChargeKeepsCells(s.(cells := s.cells[a := v]), current, d);
        TotalsBalanced(owner, Charge(s.(cells := s.cells[a := v]), current, d));
      }
    }
  }

  datatype Scan = Scan(lines: seq<Line>, isImport: bool)

  ghost predicate ScansConform(owner: seq<Kind>, scans: seq<Scan>)
    requires |owner| == NUM_REGISTERS
  {
    forall k :: 0 <= k < |scans| ==> Conforms(owner, scans[k].lines, scans[k].isImport)
  }

  /** The monitoring loop: any files, scanned in any order, while connected. */
  ghost function AfterScans(owner: seq<Kind>, r: Readings, scans: seq<Scan>): (t: Readings)
    requires |owner| == |r.cells| == NUM_REGISTERS && ScansConform(owner, scans)
    ensures |t.cells| == NUM_REGISTERS
    decreases |scans|
  {
    if scans == [] then r
    else
      assert Conforms(owner, scans[0].lines, scans[0].isImport);
      AfterScans(owner, CheckLines(r, scans[0].lines, scans[0].isImport, true, |scans[0].lines|), scans[1..])
  }

  lemma {:induction false} ScansBalanced(owner: seq<Kind>, r: Readings, scans: seq<Scan>)
    requires Ownership(owner) && |r.cells| == NUM_REGISTERS && ScansConform(owner, scans)
    requires Balanced(owner, r) && Mirrored(r)
    ensures Balanced(owner, AfterScans(owner, r, scans)) && Mirrored(AfterScans(owner, r, scans))
    decreases |scans|
  {
    hide Balanced, Mirrored, Safe, ConformsAt;
    if scans != [] {
      assert Conforms(owner, scans[0].lines, scans[0].isImport);
      CheckBalanced(owner, r, scans[0].lines, scans[0].isImport, true, |scans[0].lines|);
      ScansBalanced(owner, CheckLines(r, scans[0].lines, scans[0].isImport, true, |scans[0].lines|), scans[1..]);
    }
  }

  /** The three files read at start, then the totals published. */
  function Boot(pv: seq<Line>, ev: seq<Line>, hp: seq<Line>): (r: Readings)
    requires Safe(pv) && Safe(ev) && Safe(hp)
    ensures |r.cells| == NUM_REGISTERS
  {
    var r1 := InitLines(NoReadings(), pv, false, |pv|);
    var r2 := InitLines(r1, ev, true, |ev|);
    WithTotals(InitLines(r2, hp, true, |hp|))
  }

  /**
   * After any sequence of scans each incremental total is what the exporting
   * devices' registers add up to less what the importing ones' do, and cells 10
   * and 26 show the totals, when each register has one owner, is named once at
   * start and is none of those two cells.
   */
  lemma TotalsAreSums(owner: seq<Kind>, pv: seq<Line>, ev: seq<Line>, hp: seq<Line>, scans: seq<Scan>)
    requires Ownership(owner) && ScansConform(owner, scans)
    requires Conforms(owner, pv, false) && Conforms(owner, ev, true) && Conforms(owner, hp, true)
    requires Once(pv, {}) && Once(ev, Named(pv, |pv|)) && Once(hp, Named(pv, |pv|) + Named(ev, |ev|))
    ensures var r := AfterScans(owner, Boot(pv, ev, hp), scans);
      && r.current == Sum(owner, r.cells, false, true, 30) - Sum(owner, r.cells, true, true, 30)
      && r.voltage == Sum(owner, r.cells, false, false, 30) - Sum(owner, r.cells, true, false, 30)
      && r.cells[10] == r.current && r.cells[26] == r.voltage
  {
    hide Safe, ConformsAt, InitLines, Once, WithTotals, Total, Sum;
    var r0, r1 := NoReadings(), InitLines(NoReadings(), pv, false, |pv|);
    var r2 := InitLines(r1, ev, true, |ev|);
    NoReadingsBalanced(owner);
    InitBalanced(owner, r0, pv, false, {}, |pv|);
    assert {} + Named(pv, |pv|) == Named(pv, |pv|);
    InitBalanced(owner, r1, ev, true, Named(pv, |pv|), |ev|);
    InitBalanced(owner, r2, hp, true, Named(pv, |pv|) + Named(ev, |ev|), |hp|);
    TotalsBalanced(owner, InitLines(r2, hp, true, |hp|));
    ScansBalanced(owner, Boot(pv, ev, hp), scans);
    var r := AfterScans(owner, Boot(pv, ev, hp), scans);
    TotalIsDifference(owner, r.cells, true, NUM_REGISTERS);
    TotalIsDifference(owner, r.cells, false, NUM_REGISTERS);
  }

  // ---------------------------------------------------------------- the mirror

  /** The line gives register `a`, as 3000 + a or as a, the value `v`. */
  predicate Gives(line: Line, a: int, v: real) {
    line == Entry(a, v) || line == Entry(3000 + a, v)
  }

  /** The last of the first `k` lines to speak of register `a` gives it `v`; or none does, and `v` is `was`. */
  ghost predicate LastGiven(lines: seq<Line>, k: nat, a: int, was: real, v: real)
    requires k <= |lines|
  {
    || (v == was && forall i, w {:trigger Gives(lines[i], a, w)} :: 0 <= i < k ==> !Gives(lines[i], a, w))
    || exists j :: 0 <= j < k && Gives(lines[j], a, v) &&
         forall i, w {:trigger Gives(lines[i], a, w)} :: j < i < k ==> !Gives(lines[i], a, w)
  }

  lemma GivesIs(line: Line, a: int, v: real)
    requires SafeLine(line) && 0 <= a < 30
    ensures Gives(line, a, v) <==> Names(line) && Cell(line.address) == a && line.value == v
  {
  }

  /** The next line either speaks of the register or leaves it. */
  lemma LastGivenNext(lines: seq<Line>, k: nat, a: int, was: real, v: real)
    requires k < |lines| && SafeLine(lines[k]) && 0 <= a < 30
    ensures Names(lines[k]) && Cell(lines[k].address) == a ==> LastGiven(lines, k + 1, a, was, lines[k].value)
    ensures !(Names(lines[k]) && Cell(lines[k].address) == a) && LastGiven(lines, k, a, was, v) ==>
      LastGiven(lines, k + 1, a, was, v)
  {
    hide Gives, Cell;
    forall w ensures Gives(lines[k], a, w) <==> Names(lines[k]) && Cell(lines[k].address) == a && lines[k].value == w {
      GivesIs(lines[k], a, w);
    }
    if Names(lines[k]) && Cell(lines[k].address) == a {
      assert Gives(lines[k], a, lines[k].value);
    }
  }

  /** After a file is read at start every register of the mirror holds what the file gives it last. */
  lemma {:induction false} InitMirror(r: Readings, lines: seq<Line>, isImport: bool, k: nat, a: int)
    requires |r.cells| == NUM_REGISTERS && Safe(lines) && k <= |lines| && 0 <= a < 30
    ensures LastGiven(lines, k, a, r.cells[a], InitLines(r, lines, isImport, k).cells[a])
  {
    hide LastGiven;
    if k == 0 {
      LastGivenNone(lines, a, r.cells[a]);
    } else {
      InitMirror(r, lines, isImport, k - 1, a);
      assert SafeLine(lines[k - 1]);
      LastGivenNext(lines, k - 1, a, r.cells[a], InitLines(r, lines, isImport, k - 1).cells[a]);
    }
  }

  /** So it does after a scan, cells 10 and 26 excepted when the totals are published there. */
  lemma {:induction false} CheckMirror(r: Readings, lines: seq<Line>, isImport: bool, connected: bool, k: nat, a: int)
    requires |r.cells| == NUM_REGISTERS && Safe(lines) && k <= |lines| && 0 <= a < 30
    requires connected ==> a != 10 && a != 26
    ensures LastGiven(lines, k, a, r.cells[a], CheckLines(r, lines, isImport, connected, k).cells[a])
  {
    hide LastGiven;
    if k == 0 {
      LastGivenNone(lines, a, r.cells[a]);
    } else {
      CheckMirror(r, lines, isImport, connected, k - 1, a);
      assert SafeLine(lines[k - 1]);
      LastGivenNext(lines, k - 1, a, r.cells[a], CheckLines(r, lines, isImport, connected, k - 1).cells[a]);
    }
  }

  lemma LastGivenNone(lines: seq<Line>, a: int, was: real)
    ensures LastGiven(lines, 0, a, was, was)
  {
  }

  /**
   * A device register at cell 10 is overwritten by the total once another
   * register changes, and its own next change is then charged wrongly.
   */
  lemma TotalCellExample()
    ensures var lines := [CurrentHeader, Entry(3000, 1.0), Entry(3010, 5.0)];
      && Safe(lines)
      && var r := CheckLines(NoReadings(), lines, false, true, 3);
         r.cells[0] == 1.0 && r.cells[CURRENT_TOTAL] == 5.0 && r.current == 5.0 != 1.0 + 5.0
    ensures var lines := [Entry(3020, 1.0), Entry(3026, 5.0)];
      && Safe(lines)
      && var r := CheckLines(NoReadings(), lines, false, true, 2);
         r.cells[20] == 1.0 && r.cells[VOLTAGE_TOTAL] == 5.0 && r.voltage == 5.0 != 1.0 + 5.0
  {
    var lines := [CurrentHeader, Entry(3000, 1.0), Entry(3010, 5.0)];
    var r1 := CheckLines(NoReadings(), lines, false, true, 1);
    assert r1 == NoReadings();
    assert InCurrent(lines, 1) && InCurrent(lines, 2);
    var r2 := CheckLines(NoReadings(), lines, false, true, 2);
    assert r2.current == 1.0 && r2.cells[CURRENT_TOTAL] == 1.0;
    var others := [Entry(3020, 1.0), Entry(3026, 5.0)];
    assert !InCurrent(others, 0) && !InCurrent(others, 1);
    var r3 := CheckLines(NoReadings(), others, false, true, 1);
    assert r3.voltage == 1.0 && r3.cells[VOLTAGE_TOTAL] == 1.0;
  }
}
