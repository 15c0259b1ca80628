/** The control mode and the watchdog of the youBot's base. */
module YoubotBase {
  datatype Option<T> = None | Some(value: T)

  const WHEELS := 4
  const BASE_TIMEOUT := 2

  const MOTORSTOP := 0
  const VELOCITY := 2
  const CURRENT := 6
  const INITIALIZE := 7

  /** The error flags of a wheel. */
  datatype Flag =
    | Overcurrent | Undervoltage | Overtemp | HallErr | EncoderErr | SineCommInitErr | EmergencyStop
    | ModuleInit | EcTimeout | I2tExceeded

  /** How often a wheel has raised each error. */
  datatype Stats = Stats(
    overcurrent: nat, undervoltage: nat, overtemp: nat, hallErr: nat, encoderErr: nat, sineCommInitErr: nat,
    emergencyStop: nat, ecTimeout: nat, i2tExceeded: nat)
  {
    function Of(f: Flag): nat {
      match f
      case Overcurrent => overcurrent
      case Undervoltage => undervoltage
      case Overtemp => overtemp
      case HallErr => hallErr
      case EncoderErr => encoderErr
      case SineCommInitErr => sineCommInitErr
      case EmergencyStop => emergencyStop
      case ModuleInit => 0
      case EcTimeout => ecTimeout
      case I2tExceeded => i2tExceeded
    }

    /** One more for every error that is raised. */
    function After(flags: set<Flag>, i2tBefore: bool): Stats {
      Stats(
        overcurrent + if Overcurrent in flags then 1 else 0,
        undervoltage + if Undervoltage in flags then 1 else 0,
        overtemp + if Overtemp in flags then 1 else 0,
        hallErr + if HallErr in flags then 1 else 0,
        encoderErr + if EncoderErr in flags then 1 else 0,
        sineCommInitErr + if SineCommInitErr in flags then 1 else 0,
        emergencyStop + if EmergencyStop in flags then 1 else 0,
        ecTimeout + if EcTimeout in flags then 1 else 0,
        i2tExceeded + if I2tExceeded in flags && !i2tBefore then 1 else 0)
    }

    lemma AfterCounts(flags: set<Flag>, i2tBefore: bool, f: Flag)
      ensures After(flags, i2tBefore).Of(f) == Of(f) + if Raises(f, flags, i2tBefore) then 1 else 0
    {
      match f
      case Overcurrent =>
      case Undervoltage =>
      case Overtemp =>
      case HallErr =>
      case EncoderErr =>
      case SineCommInitErr =>
      case EmergencyStop =>
      case ModuleInit =>
      case EcTimeout =>
      case I2tExceeded =>
    }
  }

  lemma RisingEdge(flags: set<Flag>, i2tBefore: bool)
    ensures Raises(I2tExceeded, flags, i2tBefore) <==> I2tExceeded in flags && !i2tBefore
  {}

  /** A flag counts as a new error whenever it is set, except that the I2T error counts on its rising edge only
      and the end of the initialisation is no error. */
  predicate Raises(f: Flag, flags: set<Flag>, i2tBefore: bool) {
    f in flags && f != ModuleInit && (f == I2tExceeded ==> !i2tBefore)
  }

  function One(b: bool): nat {
    if b then 1 else 0
  }

  /** The fatal ones among them, and a timeout flag that cannot be cleared. */
  function FatalErrors(flags: set<Flag>, i2tBefore: bool, clearFails: bool): nat {
    One(Overcurrent in flags) + One(Undervoltage in flags) + One(Overtemp in flags)
    + One(EcTimeout in flags && clearFails) + One(Raises(I2tExceeded, flags, i2tBefore))
  }

  function TotalFatal(flags: seq<set<Flag>>, i2tBefore: seq<bool>, clearFails: set<int>, n: nat): nat
    requires n <= |flags| == |i2tBefore|
  {
    if n == 0 then 0
    else
      TotalFatal(flags, i2tBefore, clearFails, n - 1) +
      FatalErrors(flags[n - 1], i2tBefore[n - 1], n - 1 in clearFails)
  }

  datatype Twist = Twist(velX: real, velY: real, rotZ: real)

  /** What a cycle reads: the error flags of the wheels, whose timeout flag cannot be cleared, the ports, and the
      clock in whole seconds, once when the mode is switched and once for the command. */
  datatype Cycle = Cycle(
    flags: seq<set<Flag>>, clearFails: set<int>, newMode: Option<int>, switchedAt: int,
    cmdVel: Option<seq<int>>, cmdTwist: Option<Twist>, cmdCur: Option<seq<int>>, now: int)
  {
    predicate WellFormed() {
      && |flags| == WHEELS
      && (cmdVel.Some? ==> |cmdVel.value| == WHEELS)
      && (cmdCur.Some? ==> |cmdCur.value| == WHEELS)
    }
  }

  /** The mode and the wheel values that are sent to the motors. */
  datatype Output = Output(mode: int, values: seq<int>)

  predicate AllZero(values: seq<int>) {
    forall i :: 0 <= i < |values| ==> values[i] == 0
  }

  predicate Drives(mode: int) {
    mode == VELOCITY || mode == CURRENT
  }

  /** Conversion to an integer, which drops the fraction. */
  function Truncated(x: real): int {
    if x >= 0.0 then x.Floor else -(-x).Floor
  }

  /** The wheel values for a twist, given the factors from angular to wheel velocity and from that to rpm. */
  function WheelValues(twist: Twist, angular: real, rpm: real): (values: seq<int>)
    ensures |values| == WHEELS
  {
    [Truncated((-twist.velX + twist.velY + twist.rotZ * angular) * rpm),
     Truncated((twist.velX + twist.velY + twist.rotZ * angular) * rpm),
     Truncated((-twist.velX - twist.velY + twist.rotZ * angular) * rpm),
     Truncated((twist.velX - twist.velY + twist.rotZ * angular) * rpm)]
  }

  /** The wheels that report the end of their initialisation. */
  function Reported(flags: seq<set<Flag>>): set<int> {
    set i | 0 <= i < |flags| && ModuleInit in flags[i]
  }

  const ALL_WHEELS := {0, 1, 2, 3}

  /** A wheel begins to exceed its I2T limit. */
  ghost predicate Exceeds(flags: seq<set<Flag>>, before: seq<bool>)
    requires |flags| <= |before|
  {
    exists i :: 0 <= i < |flags| && Raises(I2tExceeded, flags[i], before[i])
  }

  class BaseInfo {
    const angular: real
    const rpm: real
    var modInitStat: set<int>
    var controlMode: int
    const cmdVal: array<int>
    const i2tEx: array<bool>
    const stats: array<Stats>
    var lastCmd: int

    ghost predicate Valid()
      reads this
    {
      cmdVal.Length == i2tEx.Length == stats.Length == WHEELS && modInitStat <= ALL_WHEELS
    }

    constructor (angular: real, rpm: real)
      ensures Valid() && fresh(cmdVal) && fresh(i2tEx) && fresh(stats) && modInitStat == {} && AllZero(cmdVal[..])
    {
      this.angular, this.rpm := angular, rpm;
      modInitStat, controlMode, lastCmd := {}, MOTORSTOP, 0;
      cmdVal := new int[WHEELS](i => 0);
      i2tEx := new bool[WHEELS](i => false);
      stats := new Stats[WHEELS](i => Stats(0, 0, 0, 0, 0, 0, 0, 0, 0));
    }

    method PrepareStart()
      requires Valid()
      modifies cmdVal
      ensures AllZero(cmdVal[..])
    {
      SetAll([0, 0, 0, 0]);
    }

    method SetAll(values: seq<int>)
      requires cmdVal.Length == WHEELS == |values|
      modifies cmdVal
      ensures cmdVal[..] == values
    {
      for i := 0 to WHEELS
        invariant cmdVal[..i] == values[..i]
      {
        cmdVal[i] := values[i];
      }
    }

    method IsZero() returns (zero: bool)
      requires cmdVal.Length == WHEELS
      ensures zero <==> AllZero(cmdVal[..])
    {
      zero := cmdVal[0] == 0 && cmdVal[1] == 0 && cmdVal[2] == 0 && cmdVal[3] == 0;
      assert zero ==> forall i :: 0 <= i < WHEELS ==> cmdVal[i] == 0;
      assert AllZero(cmdVal[..]) ==>
        cmdVal[..][0] == 0 && cmdVal[..][1] == 0 && cmdVal[..][2] == 0 && cmdVal[..][3] == 0;
    }

    /** The errors of one wheel. */
    method ProcWheel(i: nat, flags: set<Flag>, clearFails: bool) returns (fatalErrs: nat)
      requires Valid() && i < WHEELS
      modifies `modInitStat, `controlMode, i2tEx, stats
      ensures Valid() && modInitStat == old(modInitStat) + if ModuleInit in flags then {i as int} else {}
      ensures i2tEx[..] == old(i2tEx[..])[i := I2tExceeded in flags]
      ensures controlMode == if Raises(I2tExceeded, flags, old(i2tEx[i])) then MOTORSTOP else old(controlMode)
      ensures forall k :: 0 <= k < WHEELS && k != i ==> stats[k] == old(stats[k])
      ensures forall f :: stats[i].Of(f) == old(stats[i].Of(f)) + if Raises(f, flags, old(i2tEx[i])) then 1 else 0
      ensures fatalErrs == FatalErrors(flags, old(i2tEx[i]), clearFails)
    {
      hide Raises, FatalErrors;
      fatalErrs := CountFatal(flags, i2tEx[i], clearFails);
      RisingEdge(flags, i2tEx[i]);
      forall f {
        stats[i].AfterCounts(flags, i2tEx[i], f);
      }
      stats[i] := stats[i].After(flags, i2tEx[i]);
      if ModuleInit in flags {
        modInitStat := modInitStat + {i};
      }
      if I2tExceeded in flags && !i2tEx[i] {
        i2tEx[i] := true;
        controlMode := MOTORSTOP;
      } else if I2tExceeded !in flags && i2tEx[i] {
        i2tEx[i] := false;
      }
    }

    static method CountFatal(flags: set<Flag>, i2tBefore: bool, clearFails: bool) returns (fatalErrs: nat)
      ensures fatalErrs == FatalErrors(flags, i2tBefore, clearFails)
    {
      fatalErrs := 0;
      if Overcurrent in flags {
        fatalErrs := fatalErrs + 1;
      }
      if Undervoltage in flags {
        fatalErrs := fatalErrs + 1;
      }
      if Overtemp in flags {
        fatalErrs := fatalErrs + 1;
      }
      if EcTimeout in flags && clearFails {
        fatalErrs := fatalErrs + 1;
      }
      if I2tExceeded in flags && !i2tBefore {
        fatalErrs := fatalErrs + 1;
      }
    }

    /** Updates the statistics, notes the wheels that are initialised, stops the motors when a wheel begins to
        exceed its I2T limit, and returns the number of fatal errors. */
    method ProcErrflg(flags: seq<set<Flag>>, clearFails: set<int>) returns (fatalErrs: nat)
      requires Valid() && |flags| == WHEELS
      modifies `modInitStat, `controlMode, i2tEx, stats
      ensures Valid() && modInitStat == old(modInitStat) + Reported(flags)
      ensures I2tNow(flags, i2tEx[..])
      ensures controlMode == if Exceeds(flags, old(i2tEx[..])) then MOTORSTOP else old(controlMode)
      ensures Tallied(old(stats[..]), stats[..], flags, old(i2tEx[..]), WHEELS)
      ensures fatalErrs == TotalFatal(flags, old(i2tEx[..]), clearFails, WHEELS)
    {
      hide Exceeds, Reported, Raises, FatalErrors;
      fatalErrs := 0;
      NothingReported(flags, i2tEx[..]);
      for i := 0 to WHEELS
        invariant Valid() && modInitStat == old(modInitStat) + Reported(flags[..i])
        invariant forall k :: 0 <= k < i ==> (i2tEx[k] <==> I2tExceeded in flags[k])
        invariant forall k :: i <= k < WHEELS ==> i2tEx[k] == old(i2tEx[k]) && stats[k] == old(stats[k])
        invariant controlMode == if Exceeds(flags[..i], old(i2tEx[..])) then MOTORSTOP else old(controlMode)
        invariant Tallied(old(stats[..]), stats[..], flags, old(i2tEx[..]), i)
        invariant fatalErrs == TotalFatal(flags, old(i2tEx[..]), clearFails, i)
      {
        ReportedStep(flags, i);
        ExceedsStep(flags, old(i2tEx[..]), i);
        var fatal := ProcWheel(i, flags[i], i in clearFails);
        fatalErrs := fatalErrs + fatal;
      }
      assert flags[..WHEELS] == flags;
    }

    predicate IsConfigured()
      reads `modInitStat
    {
      modInitStat == ALL_WHEELS
    }

    /** Triggers the watchdog, or else stops the motors if it has expired. */
    method CheckWatchdog(trig: bool, now: int)
      modifies `lastCmd, `controlMode
      ensures lastCmd == if trig then now else old(lastCmd)
      ensures controlMode == if !trig && now - old(lastCmd) >= BASE_TIMEOUT then MOTORSTOP else old(controlMode)
    {
      if trig {
        lastCmd := now;
        return;
      }
      if now - lastCmd >= BASE_TIMEOUT {
        controlMode := MOTORSTOP;
      }
    }

    /** A configured base takes over a new mode from the port. */
    static predicate Switches(c: Cycle, configured: bool) {
      configured && c.newMode.Some?
    }

    /** The mode that a cycle works in: Initialize until the base is configured, then the new mode if there is
        one and it is valid, otherwise the mode before; a base that leaves Initialize or whose wheels begin to
        exceed their limits stops unless there is a new mode. */
    static ghost function Chosen(c: Cycle, configured: bool, before: int, i2tBefore: seq<bool>): int
      requires c.WellFormed() && |i2tBefore| == WHEELS
    {
      if !configured then INITIALIZE
      else if c.newMode.Some? then if 0 <= c.newMode.value <= 7 then c.newMode.value else MOTORSTOP
      else if before == INITIALIZE || Exceeds(c.flags, i2tBefore) then MOTORSTOP
      else before
    }

    /** Settles the mode that the rest of the cycle works in. */
    method ChooseMode(c: Cycle)
      requires Valid() && c.WellFormed()
      modifies this, cmdVal, i2tEx, stats
      ensures Valid() && modInitStat == old(modInitStat) + Reported(c.flags)
      ensures controlMode == Chosen(c, IsConfigured(), old(controlMode), old(i2tEx[..]))
      ensures I2tNow(c.flags, i2tEx[..]) && Tallied(old(stats[..]), stats[..], c.flags, old(i2tEx[..]), WHEELS)
      ensures if Switches(c, IsConfigured()) then AllZero(cmdVal[..]) && lastCmd == c.switchedAt
              else cmdVal[..] == old(cmdVal[..]) && lastCmd == old(lastCmd)
    {
      var fatalErrs := ProcErrflg(c.flags, c.clearFails);
      if !IsConfigured() {
        controlMode := INITIALIZE;
        return;
      } else if controlMode == INITIALIZE {
        controlMode := MOTORSTOP;
      }
      match c.newMode {
        case None =>
        case Some(cm) =>
          if cm < 0 || cm > 7 {
            controlMode := MOTORSTOP;
          } else {
            controlMode := cm;
          }
          SetAll([0, 0, 0, 0]);
          CheckWatchdog(true, c.switchedAt);
      }
    }

    /** Reads the command for the mode, and watches its age. */
    method HandleMode(c: Cycle)
      requires Valid() && c.WellFormed()
      modifies `controlMode, `lastCmd, cmdVal
      ensures !Drives(old(controlMode)) ==>
                controlMode == (if old(controlMode) == INITIALIZE then INITIALIZE else MOTORSTOP) &&
                cmdVal[..] == old(cmdVal[..]) && lastCmd == old(lastCmd)
      ensures Drives(old(controlMode)) && Commanded(c, old(controlMode)).Some? ==>
                controlMode == old(controlMode) && cmdVal[..] == Commanded(c, controlMode).value && lastCmd == c.now
      ensures Drives(old(controlMode)) && Commanded(c, old(controlMode)).None? ==>
                && cmdVal[..] == old(cmdVal[..])
                && (AllZero(cmdVal[..]) ==> controlMode == old(controlMode) && lastCmd == c.now)
                && (!AllZero(cmdVal[..]) ==>
                      && lastCmd == old(lastCmd)
                      && controlMode == if c.now - lastCmd >= BASE_TIMEOUT then MOTORSTOP else old(controlMode))
    {
      if controlMode == VELOCITY {
        if c.cmdVel.Some? {
          SetAll(c.cmdVel.value);
          CheckWatchdog(true, c.now);
        } else if c.cmdTwist.Some? {
          SetAll(WheelValues(c.cmdTwist.value, angular, rpm));
          CheckWatchdog(true, c.now);
        } else {
          var zero := IsZero();
          CheckWatchdog(zero, c.now);
        }
      } else if controlMode == CURRENT {
        if c.cmdCur.Some? {
          SetAll(c.cmdCur.value);
          CheckWatchdog(true, c.now);
        } else {
          var zero := IsZero();
          CheckWatchdog(zero, c.now);
        }
      } else if controlMode != MOTORSTOP && controlMode != INITIALIZE {
        controlMode := MOTORSTOP;
      }
    }

    /** The wheel values that the cycle commands in a mode, if it does. */
    function Commanded(c: Cycle, mode: int): Option<seq<int>> {
      if mode == VELOCITY then
        if c.cmdVel.Some? then c.cmdVel
        else if c.cmdTwist.Some? then Some(WheelValues(c.cmdTwist.value, angular, rpm))
        else None
      else if mode == CURRENT then c.cmdCur
      else None
    }

    /** The age of what drives the wheels: it is zero, or was read now, or is what drove them before, in the
        same mode, and is younger than the timeout. */
    ghost predicate InTime(c: Cycle, mode: int, values: seq<int>, last: int, mode': int, values': seq<int>,
                           last': int) {
      Drives(mode') && !AllZero(values') ==>
        || (Commanded(c, mode') == Some(values') && last' == c.now)
        || (mode' == mode && values' == values && last' == last && c.now - last < BASE_TIMEOUT)
    }

    /** One cycle. */
    method ProcUpdate(c: Cycle) returns (out: Output)
      requires Valid() && c.WellFormed()
      modifies this, cmdVal, i2tEx, stats
      ensures Valid() && out == Output(controlMode, cmdVal[..])
      ensures modInitStat == old(modInitStat) + Reported(c.flags)
      ensures I2tNow(c.flags, i2tEx[..]) && Tallied(old(stats[..]), stats[..], c.flags, old(i2tEx[..]), WHEELS)
      ensures modInitStat != ALL_WHEELS ==> out.mode == INITIALIZE
      ensures var mode := Chosen(c, IsConfigured(), old(controlMode), old(i2tEx[..]));
              && (Commanded(c, mode).Some? ==> out == Output(mode, Commanded(c, mode).value))
              && (Commanded(c, mode).None? && Switches(c, IsConfigured()) ==> AllZero(out.values))
              && (Commanded(c, mode).None? && !Switches(c, IsConfigured()) ==> out.values == old(cmdVal[..]))
              && (Commanded(c, mode).None? ==>
                    out.mode ==
                    if Drives(mode) && (AllZero(out.values) || c.now - old(lastCmd) < BASE_TIMEOUT) then mode
                    else if mode == INITIALIZE then INITIALIZE else MOTORSTOP)
      ensures InTime(c, old(controlMode), old(cmdVal[..]), old(lastCmd), controlMode, cmdVal[..], lastCmd)
    {
      ChooseMode(c);
      HandleMode(c);
      out := Output(controlMode, cmdVal[..]);
    }
  }

  /** The wheels that exceed their I2T limit, as the flags say. */
  ghost predicate I2tNow(flags: seq<set<Flag>>, i2tEx: seq<bool>) {
    |flags| == |i2tEx| && forall i :: 0 <= i < |flags| ==> (i2tEx[i] <==> I2tExceeded in flags[i])
  }

  /** The statistics of the first n wheels have gone up by the errors that the wheels raise. */
  ghost predicate Tallied(before: seq<Stats>, after: seq<Stats>, flags: seq<set<Flag>>, i2tBefore: seq<bool>, n: nat) {
    && |before| == |after| == |flags| == |i2tBefore| && n <= |flags|
    && forall i, f :: 0 <= i < n ==>
      after[i].Of(f) == before[i].Of(f) + if Raises(f, flags[i], i2tBefore[i]) then 1 else 0
  }

  lemma NothingReported(flags: seq<set<Flag>>, before: seq<bool>)
    ensures Reported(flags[..0]) == {} && !Exceeds(flags[..0], before)
  {}

  lemma ExceedsStep(flags: seq<set<Flag>>, before: seq<bool>, i: nat)
    requires i < |flags| == |before|
    ensures Exceeds(flags[..i + 1], before) <==> Exceeds(flags[..i], before) || Raises(I2tExceeded, flags[i], before[i])
  {
    var more := flags[..i + 1];
    assert more[i] == flags[i] && forall k :: 0 <= k < i ==> more[k] == flags[..i][k];
  }

  lemma ReportedStep(flags: seq<set<Flag>>, i: nat)
    requires i < |flags|
    ensures Reported(flags[..i + 1]) == Reported(flags[..i]) + if ModuleInit in flags[i] then {i as int} else {}
  {}

  /** The wheels that have reported in the first n cycles. */
  ghost function ReportedUpTo(cycles: seq<Cycle>, n: nat): set<int>
    requires n <= |cycles|
  {
    if n == 0 then {} else ReportedUpTo(cycles, n - 1) + Reported(cycles[n - 1].flags)
  }

  /** How often wheel i has raised f in the first n cycles. */
  ghost function RaisedUpTo(cycles: seq<Cycle>, i2tBefore: seq<bool>, n: nat, i: nat, f: Flag): nat
    requires n <= |cycles| && i < WHEELS == |i2tBefore| && forall k :: 0 <= k < |cycles| ==> cycles[k].WellFormed()
  {
    if n == 0 then 0
    else RaisedUpTo(cycles, i2tBefore, n - 1, i, f) +
         if Raises(f, cycles[n - 1].flags[i], I2tAt(cycles, i2tBefore, n - 1)[i]) then 1 else 0
  }

  /** The wheels that exceed their I2T limit before cycle n. */
  ghost function I2tAt(cycles: seq<Cycle>, i2tBefore: seq<bool>, n: nat): (i2t: seq<bool>)
    requires n <= |cycles| && |i2tBefore| == WHEELS && forall k :: 0 <= k < |cycles| ==> cycles[k].WellFormed()
    ensures |i2t| == WHEELS
  {
    if n == 0 then i2tBefore
    else
      var c := cycles[n - 1];
      assert c.WellFormed();
      seq(WHEELS, i requires 0 <= i < WHEELS => I2tExceeded in c.flags[i])
  }

  /** The values sent are those that the cycle's readings command in the mode sent. */
  ghost predicate Commands(base: BaseInfo, c: Cycle, out: Output) {
    base.Commanded(c, out.mode) == Some(out.values)
  }

  /** The values that drive the wheels in cycle k were read by a cycle m that worked in the same mode, less than
      the timeout before, and have driven the wheels ever since. */
  ghost predicate Fresh(base: BaseInfo, cycles: seq<Cycle>, outs: seq<Output>, k: nat)
    requires k < |cycles| && k < |outs|
  {
    Drives(outs[k].mode) && !AllZero(outs[k].values) ==>
      exists m :: 0 <= m <= k && Commands(base, cycles[m], outs[k]) && cycles[k].now - cycles[m].now < BASE_TIMEOUT &&
        forall i :: m <= i <= k ==> outs[i] == outs[k]
  }

  /** The base after n cycles: the outputs so far, and where what drives the wheels comes from. */
  ghost predicate Sourced(base: BaseInfo, cycles: seq<Cycle>, outs: seq<Output>, source: nat, mode: int,
                          values: seq<int>, last: int)
    requires |outs| <= |cycles|
  {
    Drives(mode) && !AllZero(values) ==>
      && source < |outs| && Commands(base, cycles[source], Output(mode, values)) && last == cycles[source].now
      && forall i :: source <= i < |outs| ==> outs[i] == Output(mode, values)
  }

  /** The mode is Initialize until all wheels have reported. */
  ghost predicate InitialisesFirst(cycles: seq<Cycle>, initially: set<int>, outs: seq<Output>, k: nat)
    requires k < |cycles| && k < |outs|
  {
    initially + ReportedUpTo(cycles, k + 1) != ALL_WHEELS ==> outs[k].mode == INITIALIZE
  }

  /** Over every run, whatever the ports and the flags bring: the wheels are driven only by fresh commands, the
      mode is Initialize until every wheel has reported, and the statistics count the errors raised. */
  method Run(base: BaseInfo, cycles: seq<Cycle>) returns (outs: seq<Output>)
    requires base.Valid() && forall k :: 0 <= k < |cycles| ==> cycles[k].WellFormed()
    modifies base, base.cmdVal, base.i2tEx, base.stats
    ensures |outs| == |cycles| && forall k :: 0 <= k < |outs| ==> Fresh(base, cycles, outs, k)
    ensures forall k :: 0 <= k < |outs| ==> InitialisesFirst(cycles, old(base.modInitStat), outs, k)
    ensures forall i, f :: 0 <= i < WHEELS ==>
              base.stats[i].Of(f) == old(base.stats[i].Of(f)) + RaisedUpTo(cycles, old(base.i2tEx[..]), |cycles|, i, f)
  {
    hide Fresh, InitialisesFirst, Sourced, Tallied, I2tNow, Raises, Reported, I2tAt;
    base.PrepareStart();
    outs := [];
    ghost var source := 0;
    ghost var i2tBefore, statsBefore := base.i2tEx[..], base.stats[..];
    NotSourced(base, cycles, base.controlMode, base.cmdVal[..], base.lastCmd);
    NothingTallied(cycles, i2tBefore, statsBefore);
    for k := 0 to |cycles|
      invariant base.Valid() && |outs| == k && base.modInitStat == old(base.modInitStat) + ReportedUpTo(cycles, k)
      invariant Sourced(base, cycles, outs, source, base.controlMode, base.cmdVal[..], base.lastCmd)
      invariant forall m :: 0 <= m < k ==> Fresh(base, cycles, outs, m)
      invariant forall m :: 0 <= m < k ==> InitialisesFirst(cycles, old(base.modInitStat), outs, m)
      invariant base.i2tEx[..] == I2tAt(cycles, i2tBefore, k)
      invariant TalliedUpTo(statsBefore, base.stats[..], cycles, i2tBefore, k)
    {
      ghost var mode, values, last := base.controlMode, base.cmdVal[..], base.lastCmd;
      ghost var i2t, stats := base.i2tEx[..], base.stats[..];
      var out := base.ProcUpdate(cycles[k]);
      source := NextSource(base, cycles, outs, source, mode, values, last, out, base.lastCmd);
      FirstInitialises(cycles, old(base.modInitStat), outs, out);
      TalliedStep(statsBefore, stats, base.stats[..], cycles, i2tBefore, k, base.i2tEx[..]);
      outs := outs + [out];
    }
  }

  lemma NotSourced(base: BaseInfo, cycles: seq<Cycle>, mode: int, values: seq<int>, last: int)
    requires AllZero(values)
    ensures Sourced(base, cycles, [], 0, mode, values, last)
  {}

  /** What the output of a cycle adds to the facts about the outputs so far. */
  lemma NextSource(base: BaseInfo, cycles: seq<Cycle>, outs: seq<Output>, source: nat, mode: int, values: seq<int>,
                   last: int, out: Output, last': int) returns (source': nat)
    requires |outs| < |cycles| && Sourced(base, cycles, outs, source, mode, values, last)
    requires base.InTime(cycles[|outs|], mode, values, last, out.mode, out.values, last')
    requires forall m :: 0 <= m < |outs| ==> Fresh(base, cycles, outs, m)
    ensures Sourced(base, cycles, outs + [out], source', out.mode, out.values, last')
    ensures forall m :: 0 <= m <= |outs| ==> Fresh(base, cycles, outs + [out], m)
  {
    var k, longer := |outs|, outs + [out];
    source' := if base.Commanded(cycles[k], out.mode) == Some(out.values) && last' == cycles[k].now then k else source;
    forall m | 0 <= m < k
      ensures Fresh(base, cycles, longer, m)
    {
      assert Fresh(base, cycles, outs, m) && longer[m] == outs[m];
      assert forall i :: 0 <= i <= m ==> longer[i] == outs[i];
    }
    if Drives(out.mode) && !AllZero(out.values) {
      assert Commands(base, cycles[source'], out) && forall i :: source' <= i <= k ==> longer[i] == out;
    }
  }

  lemma FirstInitialises(cycles: seq<Cycle>, initially: set<int>, outs: seq<Output>, out: Output)
    requires |outs| < |cycles| && forall m :: 0 <= m < |outs| ==> InitialisesFirst(cycles, initially, outs, m)
    requires initially + ReportedUpTo(cycles, |outs|) + Reported(cycles[|outs|].flags) != ALL_WHEELS ==>
      out.mode == INITIALIZE
    ensures forall m :: 0 <= m <= |outs| ==> InitialisesFirst(cycles, initially, outs + [out], m)
    ensures initially + ReportedUpTo(cycles, |outs|) + Reported(cycles[|outs|].flags) ==
            initially + ReportedUpTo(cycles, |outs| + 1)
  {
    hide Reported;
    assert initially + ReportedUpTo(cycles, |outs|) + Reported(cycles[|outs|].flags) ==
           initially + ReportedUpTo(cycles, |outs| + 1);
    forall m | 0 <= m < |outs|
      ensures InitialisesFirst(cycles, initially, outs + [out], m)
    {
      assert InitialisesFirst(cycles, initially, outs, m);
    }
  }

  /** The statistics after n cycles. */
  ghost predicate TalliedUpTo(before: seq<Stats>, after: seq<Stats>, cycles: seq<Cycle>, i2tBefore: seq<bool>, n: nat)
    requires n <= |cycles| && |i2tBefore| == WHEELS && forall k :: 0 <= k < |cycles| ==> cycles[k].WellFormed()
  {
    && |before| == |after| == WHEELS
    && forall i, f :: 0 <= i < WHEELS ==> after[i].Of(f) == before[i].Of(f) + RaisedUpTo(cycles, i2tBefore, n, i, f)
  }

  lemma NothingTallied(cycles: seq<Cycle>, i2tBefore: seq<bool>, before: seq<Stats>)
    requires |before| == |i2tBefore| == WHEELS && forall k :: 0 <= k < |cycles| ==> cycles[k].WellFormed()
    ensures TalliedUpTo(before, before, cycles, i2tBefore, 0) && I2tAt(cycles, i2tBefore, 0) == i2tBefore
  {}

  lemma TalliedStep(before: seq<Stats>, now: seq<Stats>, after: seq<Stats>, cycles: seq<Cycle>, i2tBefore: seq<bool>,
                    n: nat, i2t: seq<bool>)
    requires n < |cycles| && |i2tBefore| == WHEELS && forall k :: 0 <= k < |cycles| ==> cycles[k].WellFormed()
    requires TalliedUpTo(before, now, cycles, i2tBefore, n) && I2tNow(cycles[n].flags, i2t)
    requires Tallied(now, after, cycles[n].flags, I2tAt(cycles, i2tBefore, n), WHEELS)
    ensures TalliedUpTo(before, after, cycles, i2tBefore, n + 1) && i2t == I2tAt(cycles, i2tBefore, n + 1)
  {
    hide Raises;
  }
}
