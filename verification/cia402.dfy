/**
 * One CiA 402 drive as the robot drives it: the device state read from the
 * status word (object 0x6041), the enable sequence that walks the drive to
 * Operation Enabled by writing the control word (0x6040), initialisation,
 * PDO configuration, and velocity set/get in PDO or SDO mode.
 *
 * Status reads are given as the sequence of status words the drive reports,
 * one per read; a read past its end yields 0, as a timed-out SDO read does.
 * Each operation returns the requests it issues, in order.
 */
module Cia402 {
  import opened Wrappers
  import opened Bytes
  import opened Requests
  import Pdo
  import PdoMapping

  datatype State =
    | NotReadyToSwitchOn | SwitchOnDisabled | ReadyToSwitchOn | SwitchedOn
    | OperationEnabled | QuickStopActive | FaultReactionActive | Fault

  // ---------------------------------------------------------------------
  // Status word

  /** Status word bits named by CiA 402. */
  predicate ReadyBit(w: bv32) { w & 0x01 != 0 }
  predicate SwitchedOnBit(w: bv32) { w & 0x02 != 0 }
  predicate OperationBit(w: bv32) { w & 0x04 != 0 }
  predicate FaultBit(w: bv32) { w & 0x08 != 0 }
  predicate QuickStopBit(w: bv32) { w & 0x20 != 0 }
  predicate SwitchOnDisabledBit(w: bv32) { w & 0x40 != 0 }

  /**
   * The state table of CiA 402: the bit pattern (bits 0-3, 5, 6; the rest
   * are "don't care") by which a status word shows each state.
   */
  predicate Shows(w: bv32, s: State) {
    match s
    case NotReadyToSwitchOn =>
      !ReadyBit(w) && !SwitchedOnBit(w) && !OperationBit(w) && !FaultBit(w) && !SwitchOnDisabledBit(w)
    case SwitchOnDisabled =>
      !ReadyBit(w) && !SwitchedOnBit(w) && !OperationBit(w) && !FaultBit(w) && SwitchOnDisabledBit(w)
    case ReadyToSwitchOn =>
      ReadyBit(w) && !SwitchedOnBit(w) && !OperationBit(w) && !FaultBit(w) && QuickStopBit(w) && !SwitchOnDisabledBit(w)
    case SwitchedOn =>
      ReadyBit(w) && SwitchedOnBit(w) && !OperationBit(w) && !FaultBit(w) && QuickStopBit(w) && !SwitchOnDisabledBit(w)
    case OperationEnabled =>
      ReadyBit(w) && SwitchedOnBit(w) && OperationBit(w) && !FaultBit(w) && QuickStopBit(w) && !SwitchOnDisabledBit(w)
    case QuickStopActive =>
      ReadyBit(w) && SwitchedOnBit(w) && OperationBit(w) && !FaultBit(w) && !QuickStopBit(w) && !SwitchOnDisabledBit(w)
    case FaultReactionActive =>
      ReadyBit(w) && SwitchedOnBit(w) && OperationBit(w) && FaultBit(w) && !SwitchOnDisabledBit(w)
    case Fault =>
      !ReadyBit(w) && !SwitchedOnBit(w) && !OperationBit(w) && FaultBit(w) && !SwitchOnDisabledBit(w)
  }

  /**
   * The drive state a status word reports: the state whose CiA 402 pattern
   * the word shows, and Not Ready To Switch On when it shows none. Defined
   * for every word.
   */
  function DecodeState(w: bv32): State {
    match w & 0x4F
    case 0x00 => NotReadyToSwitchOn
    case 0x40 => SwitchOnDisabled
    case 0x08 => Fault
    case 0x0F => FaultReactionActive
    case _ =>
      match w & 0x6F
      case 0x21 => ReadyToSwitchOn
      case 0x23 => SwitchedOn
      case 0x27 => OperationEnabled
      case 0x07 => QuickStopActive
      case _ => NotReadyToSwitchOn
  }

  /**
   * Decoding agrees with the state table: the decoded state is the one whose
   * pattern the word shows, or Not Ready To Switch On when it shows none.
   */
  lemma DecodeStateMatchesTable(w: bv32)
    ensures Shows(w, DecodeState(w)) || (DecodeState(w) == NotReadyToSwitchOn && forall t :: !Shows(w, t))
    ensures forall t :: Shows(w, t) ==> DecodeState(w) == t
  {
  }

  /** The TPDO1 shortcut test and the state decoding agree on Operation Enabled. */
  lemma OperationEnabledAgrees(t: Pdo.Tpdo1)
    ensures DecodeState(Bits(t.statusWord)) == OperationEnabled <==> Pdo.IsOperationEnabled(t)
  {
  }

  /** Both fault states carry the fault bit that the TPDO1 shortcut tests. */
  lemma FaultStatesHaveFault(t: Pdo.Tpdo1)
    requires DecodeState(Bits(t.statusWord)) in {Fault, FaultReactionActive}
    ensures Pdo.HasFault(t)
  {
  }

  // ---------------------------------------------------------------------
  // Requests of one motor

  const ControlWord: u16 := 0x6040
  const StatusWord: u16 := 0x6041
  const ModesOfOperation: u16 := 0x6060
  const TargetVelocity: u16 := 0x60FF
  const VelocityActual: u16 := 0x606C

  /** Mode of operation 9, Cyclic Synchronous Velocity. */
  const CyclicSynchronousVelocity: i8 := 9

  /** Control word commands: Shutdown, Switch On, Enable Operation, Fault Reset. */
  const Shutdown: u32 := 0x06
  const SwitchOn: u32 := 0x07
  const EnableOperationCmd: u32 := 0x0F
  const FaultReset: u32 := 0x80

  /** Encoder counts per motor revolution. */
  const EncoderResolution: real := 10000.0

  /** A motor is its node id and whether its status and velocity travel by PDO or by SDO. */
  datatype Motor = Motor(node: u8, usePdo: bool)

  function Control(value: u32): Command {
    SdoWrite(ControlWord, 0, value, 2)
  }

  /** Reading the status word: an SDO read in SDO mode, nothing on the bus in PDO mode. */
  function StatusRead(m: Motor): seq<Command> {
    if m.usePdo then [] else [SdoRead(StatusWord, 0)]
  }

  /**
   * Clearing a fault: one control-word write, the Fault Reset command that
   * takes a drive in Fault to Switch On Disabled and that the enable
   * sequence also writes in Fault.
   */
  function ResetFault(m: Motor): (cmds: seq<Command>)
    ensures |cmds| == 1 && cmds[0].SdoWrite? && cmds[0].index == ControlWord
      && cmds[0].subindex == 0 && cmds[0].size == 2
    ensures DriveReaction(Fault, Some(cmds[0].value)) == SwitchOnDisabled
    ensures Some(cmds[0].value) == TransitionCommand(Fault)
  {
    [Control(FaultReset)]
  }

  // ---------------------------------------------------------------------
  // The drive, as CiA 402 defines its reaction to control words

  /**
   * The state an ideal CiA 402 drive moves to after one poll, given the
   * control word written in that poll (if any): transitions 1 and 14 happen
   * on their own, 2, 3, 4 and 15 are triggered by Shutdown, Switch On,
   * Enable Operation and Fault Reset.
   */
  function DriveReaction(s: State, cmd: Option<u32>): State {
    match s
    case NotReadyToSwitchOn => SwitchOnDisabled
    case FaultReactionActive => Fault
    case SwitchOnDisabled => if cmd == Some(Shutdown) then ReadyToSwitchOn else s
    case ReadyToSwitchOn => if cmd == Some(SwitchOn) then SwitchedOn else s
    case SwitchedOn => if cmd == Some(EnableOperationCmd) then OperationEnabled else s
    case Fault => if cmd == Some(FaultReset) then SwitchOnDisabled else s
    case _ => s
  }

  /** Distance of a state from Operation Enabled along the enable path. */
  function Distance(s: State): nat {
    match s
    case OperationEnabled => 0
    case SwitchedOn => 1
    case ReadyToSwitchOn => 2
    case SwitchOnDisabled => 3
    case NotReadyToSwitchOn => 4
    case Fault => 4
    case FaultReactionActive => 5
    case QuickStopActive => 6
  }

  /**
   * The control word the enable sequence writes in each state. From every
   * state on the way to Operation Enabled, an ideal drive reacting to it
   * comes one step closer; Operation Enabled and Quick Stop Active get none.
   */
  function TransitionCommand(s: State): (cmd: Option<u32>)
    ensures cmd.Some? ==> cmd.value in {Shutdown, SwitchOn, EnableOperationCmd, FaultReset}
    ensures s != OperationEnabled && s != QuickStopActive ==>
      Distance(DriveReaction(s, cmd)) + 1 == Distance(s)
    ensures s !in {SwitchOnDisabled, ReadyToSwitchOn, SwitchedOn, Fault} <==> cmd == None
  {
    match s
    case SwitchOnDisabled => Some(Shutdown)
    case ReadyToSwitchOn => Some(SwitchOn)
    case SwitchedOn => Some(EnableOperationCmd)
    case Fault => Some(FaultReset)
    case _ => None
  }

  // ---------------------------------------------------------------------
  // Enable sequence

  const MaxEnableAttempts: nat := 10

  /** The i-th status word read, or 0 when the reads have run out. */
  function Observed(obs: seq<u32>, i: nat): u32 {
    if i < |obs| then obs[i] else 0
  }

  /** The status words left after the first k reads. */
  function Drop(obs: seq<u32>, k: nat): (rest: seq<u32>)
    ensures forall i: nat :: Observed(rest, i) == Observed(obs, k + i)
  {
    if k <= |obs| then obs[k..] else []
  }

  /**
   * The i-th read shows Operation Enabled. Written as the state-table test
   * on bits 0-3, 5 and 6, which is the same as decoding the word to
   * Operation Enabled (EnabledAtDecodes).
   */
  predicate EnabledAt(obs: seq<u32>, i: nat) {
    Bits(Observed(obs, i)) & 0x6F == 0x27
  }

  lemma EnabledAtDecodes(obs: seq<u32>, i: nat)
    ensures EnabledAt(obs, i) <==> DecodeState(Bits(Observed(obs, i))) == OperationEnabled
  {
  }

  /** One poll of the enable loop that did not find Operation Enabled: read, then write its control word. */
  function PollCommands(m: Motor, w: u32): seq<Command> {
    StatusRead(m) + match TransitionCommand(DecodeState(Bits(w)))
      case Some(c) => [Control(c)]
      case None => []
  }

  datatype Outcome = Outcome(ok: bool, commands: seq<Command>)

  /** The enable loop from attempt i on. */
  function EnableFrom(m: Motor, obs: seq<u32>, i: nat): (r: Outcome)
    requires i <= MaxEnableAttempts
    ensures r.ok ==> exists j :: i <= j < MaxEnableAttempts && EnabledAt(obs, j)
    ensures forall c <- r.commands :: c == SdoRead(StatusWord, 0)
              || (c.SdoWrite? && c.index == ControlWord && c.subindex == 0 && c.size == 2
                  && c.value in {Shutdown, SwitchOn, EnableOperationCmd, FaultReset})
    decreases MaxEnableAttempts - i
  {
    if i == MaxEnableAttempts then Outcome(false, [])
    else if EnabledAt(obs, i) then Outcome(true, StatusRead(m))
    else
      var rest := EnableFrom(m, obs, i + 1);
      Outcome(rest.ok, PollCommands(m, Observed(obs, i)) + rest.commands)
  }

  /**
   * Enabling operation: at most ten polls; each reads the status and, unless
   * the drive is in Operation Enabled, writes the control word for its state.
   */
  function EnableOperation(m: Motor, obs: seq<u32>): Outcome {
    EnableFrom(m, obs, 0)
  }

  /** The requests of polls i..k-1, none of which found Operation Enabled. */
  function Polls(m: Motor, obs: seq<u32>, i: nat, k: nat): seq<Command>
    decreases k - i
  {
    if i >= k then [] else PollCommands(m, Observed(obs, i)) + Polls(m, obs, i + 1, k)
  }

  /** The first of the ten polls that finds Operation Enabled, if any. */
  predicate FirstEnabled(obs: seq<u32>, k: nat) {
    k < MaxEnableAttempts && EnabledAt(obs, k) && forall j :: 0 <= j < k ==> !EnabledAt(obs, j)
  }

  /** The loop from attempt i on, when poll k is the first to find Operation Enabled. */
  lemma {:induction false} EnableFromFound(m: Motor, obs: seq<u32>, i: nat, k: nat)
    requires i <= k && FirstEnabled(obs, k)
    ensures EnableFrom(m, obs, i).ok
    ensures EnableFrom(m, obs, i).commands == Polls(m, obs, i, k) + StatusRead(m)
    decreases k - i
  {
    if i == k {
      assert Polls(m, obs, i, i) == [];
    } else {
      EnableFromStep(m, obs, i);
      EnableFromFound(m, obs, i + 1, k);
      SeqAssoc3(PollCommands(m, Observed(obs, i)), Polls(m, obs, i + 1, k), StatusRead(m));
    }
  }

  /** One poll that does not find Operation Enabled, then the rest of the loop. */
  lemma EnableFromStep(m: Motor, obs: seq<u32>, i: nat)
    requires i < MaxEnableAttempts && !EnabledAt(obs, i)
    ensures EnableFrom(m, obs, i).ok == EnableFrom(m, obs, i + 1).ok
    ensures EnableFrom(m, obs, i).commands == PollCommands(m, Observed(obs, i)) + EnableFrom(m, obs, i + 1).commands
  {
  }

  /** The loop from attempt i on, when none of the remaining polls finds Operation Enabled. */
  lemma {:induction false} EnableFromMissed(m: Motor, obs: seq<u32>, i: nat)
    requires i <= MaxEnableAttempts
    requires forall j :: i <= j < MaxEnableAttempts ==> !EnabledAt(obs, j)
    ensures !EnableFrom(m, obs, i).ok
    ensures EnableFrom(m, obs, i).commands == Polls(m, obs, i, MaxEnableAttempts)
    decreases MaxEnableAttempts - i
  {
    if i < MaxEnableAttempts {
      EnableFromMissed(m, obs, i + 1);
    }
  }

  /**
   * The enable loop succeeds exactly when one of the first ten status words
   * shows Operation Enabled. It issues the requests of every poll before
   * the first such word, then that word's read, and nothing after it; when
   * it fails it has issued the requests of all ten polls.
   */
  lemma EnableOperationSpec(m: Motor, obs: seq<u32>)
    ensures EnableOperation(m, obs).ok <==> exists i :: 0 <= i < MaxEnableAttempts && EnabledAt(obs, i)
    ensures forall k :: FirstEnabled(obs, k) ==> EnableOperation(m, obs).commands == Polls(m, obs, 0, k) + StatusRead(m)
    ensures !EnableOperation(m, obs).ok ==> EnableOperation(m, obs).commands == Polls(m, obs, 0, MaxEnableAttempts)
  {
    if exists i :: 0 <= i < MaxEnableAttempts && EnabledAt(obs, i) {
      var i :| 0 <= i < MaxEnableAttempts && EnabledAt(obs, i);
      FirstEnabledExists(obs, i);
      var k :| FirstEnabled(obs, k);
      EnableFromFound(m, obs, 0, k);
      forall k': nat | FirstEnabled(obs, k') ensures k' == k {
        FirstEnabledUnique(obs, k, k');
      }
    } else {
      EnableFromMissed(m, obs, 0);
    }
  }

  /** Operation Enabled within the first ten reads makes the enable loop succeed. */
  lemma EnableOperationSucceeds(m: Motor, obs: seq<u32>, i: nat)
    requires i < MaxEnableAttempts && EnabledAt(obs, i)
    ensures EnableOperation(m, obs).ok
  {
    FirstEnabledExists(obs, i);
    var k :| FirstEnabled(obs, k);
    EnableFromFound(m, obs, 0, k);
  }

  lemma FirstEnabledUnique(obs: seq<u32>, k: nat, k': nat)
    requires FirstEnabled(obs, k) && FirstEnabled(obs, k')
    ensures k == k'
  {
  }

  lemma {:induction false} FirstEnabledExists(obs: seq<u32>, i: nat)
    requires i < MaxEnableAttempts && EnabledAt(obs, i)
    ensures exists k :: FirstEnabled(obs, k)
  {
    if forall j :: 0 <= j < i ==> !EnabledAt(obs, j) {
      assert FirstEnabled(obs, i);
    } else {
      var j :| 0 <= j < i && EnabledAt(obs, j);
      FirstEnabledExists(obs, j);
    }
  }

  // ---------------------------------------------------------------------
  // Initialisation

  /** A fault is seen on the first read, so initialisation resets it and reads again. */
  predicate StartsFaulted(obs: seq<u32>) {
    DecodeState(Bits(Observed(obs, 0))) == Fault
  }

  /** Status reads made before the enable sequence starts. */
  function InitialReads(obs: seq<u32>): nat {
    if StartsFaulted(obs) then 2 else 1
  }

  /** The requests before the enable sequence: the first read and, after a fault, the reset and a re-read. */
  function InitialCommands(m: Motor, obs: seq<u32>): seq<Command> {
    StatusRead(m) + (if StartsFaulted(obs) then ResetFault(m) + StatusRead(m) else [])
  }

  /**
   * Initialising a motor: read the state; on Fault, reset and read again;
   * run the enable sequence; if it succeeds, select Cyclic Synchronous
   * Velocity (0x6060 := 9) and zero the target velocity (0x60FF := 0).
   */
  function Initialize(m: Motor, obs: seq<u32>): (r: Outcome)
    ensures r.ok == EnableOperation(m, Drop(obs, InitialReads(obs))).ok
    ensures r.ok ==>
              && |r.commands| >= 2
              && r.commands[|r.commands| - 2] == SdoWrite(ModesOfOperation, 0, CyclicSynchronousVelocity, 1)
              && r.commands[|r.commands| - 1] == SdoWrite(TargetVelocity, 0, 0, 4)
  {
    var enable := EnableOperation(m, Drop(obs, InitialReads(obs)));
    var before := InitialCommands(m, obs);
    if !enable.ok then Outcome(false, before + enable.commands)
    else
      Outcome(true, before + enable.commands
        + [SdoWrite(ModesOfOperation, 0, CyclicSynchronousVelocity, 1), SdoWrite(TargetVelocity, 0, 0, 4)])
  }

  /**
   * Initialisation succeeds exactly when one of the ten status words after
   * the initial read (and, after a fault, the re-read) shows Operation Enabled.
   */
  lemma InitializeSpec(m: Motor, obs: seq<u32>)
    ensures Initialize(m, obs).ok <==>
      exists i :: InitialReads(obs) <= i < InitialReads(obs) + MaxEnableAttempts && EnabledAt(obs, i)
  {
    var skip := InitialReads(obs);
    var rest := Drop(obs, skip);
    if exists i :: skip <= i < skip + MaxEnableAttempts && EnabledAt(obs, i) {
      var i :| skip <= i < skip + MaxEnableAttempts && EnabledAt(obs, i);
      assert Observed(rest, i - skip) == Observed(obs, i);
      EnableOperationSucceeds(m, rest, i - skip);
    } else {
      forall j | 0 <= j < MaxEnableAttempts ensures !EnabledAt(rest, j) {
        assert !EnabledAt(obs, skip + j);
        assert Observed(rest, j) == Observed(obs, skip + j);
      }
      EnableFromMissed(m, rest, 0);
    }
  }

  /**
   * The requests of a successful initialisation, in order: the initial
   * read(s) and reset, the polls before the first one that finds Operation
   * Enabled, that poll's read, then the mode and target-velocity writes.
   */
  lemma InitializeFound(m: Motor, obs: seq<u32>, k: nat)
    requires FirstEnabled(Drop(obs, InitialReads(obs)), k)
    ensures Initialize(m, obs).ok
    ensures Initialize(m, obs).commands
      == InitialCommands(m, obs) + Polls(m, Drop(obs, InitialReads(obs)), 0, k) + StatusRead(m)
         + [SdoWrite(ModesOfOperation, 0, CyclicSynchronousVelocity, 1), SdoWrite(TargetVelocity, 0, 0, 4)]
  {
    var rest := Drop(obs, InitialReads(obs));
    EnableFromFound(m, rest, 0, k);
    var enable := EnableOperation(m, rest);
    InitializeUnfold(m, obs);
    SeqAssoc(InitialCommands(m, obs), Polls(m, rest, 0, k), StatusRead(m),
      [SdoWrite(ModesOfOperation, 0, CyclicSynchronousVelocity, 1), SdoWrite(TargetVelocity, 0, 0, 4)]);
  }

  lemma SeqAssoc3<T>(a: seq<T>, b: seq<T>, c: seq<T>)
    ensures a + (b + c) == a + b + c
  {
  }

  lemma SeqAssoc<T>(a: seq<T>, b: seq<T>, c: seq<T>, d: seq<T>)
    ensures a + (b + c) + d == a + b + c + d
  {
  }

  /** Initialisation is the initial requests, then the enable loop's, then on success the two writes. */
  lemma InitializeUnfold(m: Motor, obs: seq<u32>)
    ensures var enable := EnableOperation(m, Drop(obs, InitialReads(obs)));
      && Initialize(m, obs).ok == enable.ok
      && Initialize(m, obs).commands == InitialCommands(m, obs) + enable.commands
         + (if enable.ok then [SdoWrite(ModesOfOperation, 0, CyclicSynchronousVelocity, 1), SdoWrite(TargetVelocity, 0, 0, 4)] else [])
  {
    var enable := EnableOperation(m, Drop(obs, InitialReads(obs)));
    if !enable.ok {
      assert InitialCommands(m, obs) + enable.commands + [] == InitialCommands(m, obs) + enable.commands;
    }
  }

  /**
   * The requests of a failed initialisation, in order: the initial read(s)
   * and reset, then all ten polls, and nothing else.
   */
  lemma InitializeMissed(m: Motor, obs: seq<u32>)
    requires forall j :: 0 <= j < MaxEnableAttempts ==> !EnabledAt(Drop(obs, InitialReads(obs)), j)
    ensures !Initialize(m, obs).ok
    ensures Initialize(m, obs).commands
      == InitialCommands(m, obs) + Polls(m, Drop(obs, InitialReads(obs)), 0, MaxEnableAttempts)
  {
    EnableFromMissed(m, Drop(obs, InitialReads(obs)), 0);
    InitializeUnfold(m, obs);
  }

  /** A fault seen on the first read is reset before anything else is written. */
  lemma InitializeResetsFaultFirst(m: Motor, obs: seq<u32>)
    requires StartsFaulted(obs)
    ensures |Initialize(m, obs).commands| > |StatusRead(m)|
    ensures Initialize(m, obs).commands[|StatusRead(m)|] == Control(FaultReset)
  {
    var enable := EnableOperation(m, Drop(obs, InitialReads(obs)));
    var before := InitialCommands(m, obs);
    var cmds := Initialize(m, obs).commands;
    assert before[|StatusRead(m)|] == Control(FaultReset);
    assert cmds[..|before|] == before;
  }

  /** The commands of the prelude and the enable loop: status reads and control words only. */
  predicate EnableRequest(c: Command) {
    c == SdoRead(StatusWord, 0) || (c.SdoWrite? && c.index == ControlWord && c.size == 2)
  }

  /**
   * Until the enable sequence has succeeded no mode or velocity is written:
   * a failed initialisation issues only status reads and control words.
   */
  lemma InitializeFailureWritesNoMode(m: Motor, obs: seq<u32>)
    requires !Initialize(m, obs).ok
    ensures forall c <- Initialize(m, obs).commands :: EnableRequest(c)
  {
    var enable := EnableOperation(m, Drop(obs, InitialReads(obs)));
    var before := InitialCommands(m, obs);
    InitializeUnfold(m, obs);
    assert forall c <- before :: EnableRequest(c);
    assert forall c <- enable.commands :: EnableRequest(c);
    assert Initialize(m, obs).commands == before + enable.commands + [];
  }

  // ---------------------------------------------------------------------
  // An ideal drive answers the enable sequence

  /** A status word showing each state: its CiA 402 pattern with the don't-care bits clear. */
  function StatusWordOf(s: State): (w: u32)
    ensures Shows(Bits(w), s)
  {
    match s
    case NotReadyToSwitchOn => assert Bits(0x00) == 0x00; 0x00
    case SwitchOnDisabled => assert Bits(0x40) == 0x40; 0x40
    case ReadyToSwitchOn => assert Bits(0x21) == 0x21; 0x21
    case SwitchedOn => assert Bits(0x23) == 0x23; 0x23
    case OperationEnabled => assert Bits(0x27) == 0x27; 0x27
    case QuickStopActive => assert Bits(0x07) == 0x07; 0x07
    case FaultReactionActive => assert Bits(0x0F) == 0x0F; 0x0F
    case Fault => assert Bits(0x08) == 0x08; 0x08
  }

  /** The status words an ideal drive starting in `s` reports over n polls of the enable loop. */
  function IdealReports(s: State, n: nat): (obs: seq<u32>)
    ensures |obs| == n
    decreases n
  {
    if n == 0 then []
    else [StatusWordOf(s)] + IdealReports(DriveReaction(s, TransitionCommand(s)), n - 1)
  }

  /** Against an ideal drive the enable loop reaches Operation Enabled from any state but Quick Stop Active. */
  lemma {:induction false} IdealDriveEnables(m: Motor, s: State)
    requires s != QuickStopActive
    ensures EnableOperation(m, IdealReports(s, MaxEnableAttempts)).ok
  {
    IdealReachesEnabled(s, MaxEnableAttempts);
    EnableOperationSucceeds(m, IdealReports(s, MaxEnableAttempts), Distance(s));
  }

  lemma {:induction false} IdealReachesEnabled(s: State, n: nat)
    requires s != QuickStopActive && Distance(s) < n
    ensures EnabledAt(IdealReports(s, n), Distance(s))
    decreases n
  {
    var obs := IdealReports(s, n);
    if s == OperationEnabled {
      assert Observed(obs, 0) == 0x27;
      assert Bits(0x27) == 0x27;
    } else {
      var s' := DriveReaction(s, TransitionCommand(s));
      IdealReachesEnabled(s', n - 1);
      assert Observed(obs, Distance(s)) == Observed(IdealReports(s', n - 1), Distance(s'));
    }
  }

  // ---------------------------------------------------------------------
  // PDO configuration

  /**
   * Configuring RPDO2, TPDO1 and TPDO2 (in that order) and switching the
   * motor to PDO mode. Every write is one the SDO layer can encode; the
   * outcomes of the writes are not checked and the call reports success.
   */
  function ConfigurePdo(m: Motor): (r: (Motor, seq<Command>))
    ensures r.0 == m.(usePdo := true)
    ensures forall c <- r.1 :: WellFormed(c) && c.SdoWrite?
    ensures |r.1| == 6 + 7 + 6
  {
    (m.(usePdo := true),
     PdoMapping.SetupScript(PdoMapping.Rpdo2Setup, m.node)
     + PdoMapping.SetupScript(PdoMapping.Tpdo1Setup, m.node)
     + PdoMapping.SetupScript(PdoMapping.Tpdo2Setup, m.node))
  }

  /** The configuration writes, word for word. */
  lemma ConfigurePdoWrites(m: Motor)
    ensures var n := m.node; ConfigurePdo(m).1 == [
      SdoWrite(0x1401, 1, 0x80000300 + n, 4), SdoWrite(0x1601, 0, 0, 1),
      SdoWrite(0x1601, 1, 0x60FF0020, 4), SdoWrite(0x1601, 2, 0x60600008, 4),
      SdoWrite(0x1601, 0, 2, 1), SdoWrite(0x1401, 1, 0x00000300 + n, 4),
      SdoWrite(0x1800, 1, 0x80000180 + n, 4), SdoWrite(0x1A00, 0, 0, 1),
      SdoWrite(0x1A00, 1, 0x60410010, 4), SdoWrite(0x1A00, 2, 0x60640020, 4),
      SdoWrite(0x1A00, 3, 0x60770010, 4), SdoWrite(0x1A00, 0, 3, 1),
      SdoWrite(0x1800, 1, 0x00000180 + n, 4),
      SdoWrite(0x1801, 1, 0x80000280 + n, 4), SdoWrite(0x1A01, 0, 0, 1),
      SdoWrite(0x1A01, 1, 0x606C0020, 4), SdoWrite(0x1A01, 2, 0x60610008, 4),
      SdoWrite(0x1A01, 0, 2, 1), SdoWrite(0x1801, 1, 0x00000280 + n, 4)]
  {
  }

  // ---------------------------------------------------------------------
  // Velocity

  /** Truncation toward zero, as a cast from floating point to integer does. */
  function Truncate(x: real): (n: int)
    ensures 0.0 <= x ==> n as real <= x < n as real + 1.0
    ensures x < 0.0 ==> n as real - 1.0 < x <= n as real
  {
    if x >= 0.0 then x.Floor else -((-x).Floor)
  }

  /** Encoder counts per second for a speed in revolutions per minute. */
  function CountsFromRpm(rpm: real): int {
    Truncate(rpm * EncoderResolution / 60.0)
  }

  /** Revolutions per minute for a speed in encoder counts per second. */
  function RpmFromCounts(counts: int): real {
    counts as real * 60.0 / EncoderResolution
  }

  /** Converting counts to RPM and back loses nothing. */
  lemma CountsRpmRoundTrip(counts: int)
    ensures CountsFromRpm(RpmFromCounts(counts)) == counts
  {
    assert RpmFromCounts(counts) * EncoderResolution / 60.0 == counts as real;
  }

  /** Speeds within the robot's limit convert to counts far inside the 32-bit range. */
  lemma CountsBound(rpm: real)
    requires -1500.0 <= rpm <= 1500.0
    ensures -250000 <= CountsFromRpm(rpm) <= 250000
  {
  }

  /**
   * Commanding a velocity in counts per second. In PDO mode one RPDO2 frame
   * carries it with mode Cyclic Synchronous Velocity; in SDO mode the target
   * velocity is written as a 4-byte two's-complement value, then the control
   * word re-asserts Enable Operation.
   */
  function SetVelocity(m: Motor, velocity: i32): (cmds: seq<Command>)
    ensures m.usePdo ==> cmds == [Rpdo2(velocity, CyclicSynchronousVelocity)]
    ensures !m.usePdo ==>
              && |cmds| == 2
              && cmds[0].SdoWrite? && cmds[0].index == TargetVelocity && cmds[0].subindex == 0 && cmds[0].size == 4
              && Signed32(cmds[0].value) == velocity
              && cmds[1] == Control(EnableOperationCmd)
  {
    if m.usePdo then [Rpdo2(velocity, CyclicSynchronousVelocity)]
    else [SdoWrite(TargetVelocity, 0, Unsigned32(velocity), 4), Control(EnableOperationCmd)]
  }

  /**
   * A count value is the RPM truncated toward zero: it has the sign of the
   * RPM, is no larger in size, and is less than one count away.
   */
  predicate WithinOneCount(rpm: real, counts: int) {
    var r := RpmFromCounts(counts);
    && (rpm >= 0.0 ==> 0.0 <= r <= rpm && rpm - r < RpmFromCounts(1))
    && (rpm < 0.0 ==> rpm <= r <= 0.0 && r - rpm < RpmFromCounts(1))
  }

  /**
   * Commanding a velocity in RPM: the counts are the RPM scaled by the encoder
   * resolution per minute, truncated toward zero.
   */
  function SetVelocityRpm(m: Motor, rpm: real): (cmds: seq<Command>)
    requires -0x8000_0000 <= CountsFromRpm(rpm) < 0x8000_0000
    ensures m.usePdo ==>
              && |cmds| == 1 && cmds[0].Rpdo2? && cmds[0].mode == CyclicSynchronousVelocity
              && WithinOneCount(rpm, cmds[0].velocity)
    ensures !m.usePdo ==>
              && |cmds| == 2
              && cmds[0].SdoWrite? && cmds[0].index == TargetVelocity && cmds[0].subindex == 0 && cmds[0].size == 4
              && WithinOneCount(rpm, Signed32(cmds[0].value))
              && cmds[1] == Control(EnableOperationCmd)
  {
    SetVelocity(m, CountsFromRpm(rpm))
  }

  datatype Reading = Reading(commands: seq<Command>, counts: i32)

  /**
   * Reading the actual velocity in counts per second: in PDO mode the latest
   * TPDO2 of the node (0 if none arrived), with no request; in SDO mode a read
   * of 0x606C whose 32-bit reply is taken as two's complement.
   */
  function GetActualVelocity(m: Motor, store: Pdo.Telemetry, reply: u32): (r: Reading)
    ensures m.usePdo ==> r.commands == [] && r.counts == Pdo.LatestTpdo2(store, m.node).actualVelocity
    ensures !m.usePdo ==> r.commands == [SdoRead(VelocityActual, 0)] && Unsigned32(r.counts) == reply
  {
    if m.usePdo then Reading([], Pdo.LatestTpdo2(store, m.node).actualVelocity)
    else Reading([SdoRead(VelocityActual, 0)], Signed32(reply))
  }

  /** The actual velocity in RPM. */
  function GetActualVelocityRpm(m: Motor, store: Pdo.Telemetry, reply: u32): (r: (seq<Command>, real))
    ensures r.1 * EncoderResolution / 60.0 == GetActualVelocity(m, store, reply).counts as real
    ensures CountsFromRpm(r.1) == GetActualVelocity(m, store, reply).counts
    ensures m.usePdo ==> r.0 == []
    ensures !m.usePdo ==> r.0 == [SdoRead(VelocityActual, 0)]
  {
    var reading := GetActualVelocity(m, store, reply);
    CountsRpmRoundTrip(reading.counts);
    (reading.commands, RpmFromCounts(reading.counts))
  }

  /**
   * A velocity written over SDO and read back over SDO is the velocity
   * written, for every 32-bit value.
   */
  lemma SdoVelocityRoundTrip(m: Motor, store: Pdo.Telemetry, velocity: i32)
    requires !m.usePdo
    ensures GetActualVelocity(m, store, SetVelocity(m, velocity)[0].value).counts == velocity
  {
  }

  /**
   * Disabling: command velocity 0, then write control word 0x07. The same
   * word is the Switch On command of the enable sequence, and read as a
   * status word it is the Quick Stop Active pattern.
   */
  function Disable(m: Motor): (cmds: seq<Command>)
    ensures |cmds| >= 1 && cmds[..|cmds| - 1] == SetVelocity(m, 0)
    ensures cmds[|cmds| - 1] == Control(0x07)
    ensures Some(cmds[|cmds| - 1].value) == TransitionCommand(ReadyToSwitchOn)
    ensures DecodeState(Bits(cmds[|cmds| - 1].value)) == QuickStopActive
  {
    SetVelocity(m, 0) + [Control(0x07)]
  }

}
