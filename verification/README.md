# CANopen two-wheel robot: a Dafny model

This project models the control core of a two-wheel robot. Each wheel is a
CiA 402 servo drive on a CAN bus, and a gamepad steers the robot. The model
covers:

- the CANopen frames the program sends and receives:
  - NMT commands;
  - the TPDO1 and TPDO2 telemetry PDOs the drives transmit, and the RPDO2 velocity PDO the robot transmits;
  - expedited SDO write and read requests, and the client's wait for their replies;
- the per-node store of the latest telemetry;
- the PDO mapping script that configures each drive;
- the CiA 402 drive logic:
  - status-word decoding;
  - the bounded enable sequence, fault reset and initialisation;
  - velocity set and get in PDO or SDO mode;
  - disabling the drive;
- the joystick mixer: dead zone, straight-or-pivot mixing, hysteresis, the R1 dead-man button and the 20 ms rate limit.

The Dafny modules are:

| module | contents |
|---|---|
| `Wrappers` | `Option` |
| `Bytes` | bytes, little-endian fields, two's complement |
| `Frames` | CAN frames, COB-ID bases, NMT |
| `Pdo` | TPDO1/TPDO2 codecs, RPDO2, the telemetry store |
| `Sdo` | expedited SDO framing and reply handling |
| `Requests` | the requests a motor issues |
| `PdoMapping` | the mapping script and an object-dictionary model it is checked against |
| `Cia402` | one drive |
| `Robot` | the two-wheel mixer |

Conventions:

- **Frames.** A CAN frame is a COB-ID and a sequence of bytes.
- **Replies and timeouts.** Whatever arrives while a reply is awaited is a finite sequence of frames. Reaching the end of that sequence is the timeout.
- **Motor operations.** Each one returns the requests it issues, in order: SDO writes, SDO reads and RPDO2 frames. Status words the drive reports are given as a sequence, one per status read. A read past the end yields 0, as a timed-out SDO read does.
- **Robot steps.** Time is an integer number of milliseconds. A robot step returns the new robot and the wheel speeds it sends.

Independent references the operations are checked against:

- the CiA 402 state table (`Cia402.Shows`);
- the CiA 301 formula for the expedited command byte (`Sdo.WriteCommand`);
- an ideal drive that reacts to control words as CiA 402 prescribes (`Cia402.DriveReaction`);
- an object-dictionary model that SDO writes update (`PdoMapping.ApplyWrites`);
- the server-side reading of SDO request frames (`Sdo.ParseRequest`).

## Model

| member | source | states |
|---|---|---|
| Bytes.LeBytesOfValue | Program.cs:34-36 | Re-encoding a little-endian field gives back its bytes, so the field readers lose nothing. |
| Bytes.Unsigned | Program.cs:766-767 | Adding 2^(8n) to a negative value gives a value below 2^(8n) whose two's-complement reading is the original. |
| Bytes.Signed32 | Program.cs:783 | Subtracting 2^32 from a value above 0x7FFFFFFF gives a 32-bit signed value that converts back to the raw value. |
| Bytes.Unsigned32 | Program.cs:766-767 | The SDO encoding of a signed velocity converts back to the same velocity. |
| Frames.SendNmt | Program.cs:287-303 | No frame is sent and the result is false when disconnected. Otherwise one frame goes to COB-ID 0 with data [command, node]. |
| Pdo.DecodeTpdo1 | Program.cs:31-37 | The status word comes from bytes 0-1 when at least 2 bytes are present, the position from bytes 2-5 when at least 6, the torque from bytes 6-7 when at least 8. Each field is exactly the LE reading of its bytes and is 0 when absent. |
| Pdo.Tpdo1RoundTrip | Program.cs:31-37 | A drive's 8-byte TPDO1 payload decodes to the snapshot it was built from. |
| Pdo.Tpdo1Reencode | Program.cs:31-37 | Re-encoding the decoding of a full payload gives back its first 8 bytes. |
| Pdo.Tpdo1Example | Program.cs:31-39 | 27 06 64 00 00 00 05 00 decodes to status 0x0627, position 100, torque 5, and shows Operation Enabled. |
| Pdo.DecodeTpdo2 | Program.cs:48-56 | With fewer than 5 bytes both fields are 0. Otherwise the velocity is the signed LE reading of bytes 0-3 and the mode display is byte 4. |
| Pdo.BuildRpdo2 | Program.cs:311-315 | The frame goes to COB-ID 0x300+node with 5 bytes. Read with the TPDO2 layout, it gives back the velocity and the mode as an unsigned byte. |
| Pdo.SendRpdo2 | Program.cs:306-324 | One RPDO2 frame is sent and the result is true iff the interface is connected. |
| Pdo.ProcessPdoMessage | Program.cs:377-394 | COB-ID 0x180..0x1FF replaces only node (id-0x180)'s TPDO1 and its time. COB-ID 0x280..0x2FF replaces only node (id-0x280)'s TPDO2 and its time. Either raises the matching notice. Any other frame changes nothing. |
| Pdo.ReceiveTpdo1 | Program.cs:377-385 | After a node's TPDO1 frame arrives, the node's latest TPDO1 is that snapshot. |
| Pdo.UnheardNodeReadsZero | Program.cs:245-249 | After any run of frames none of which is a TPDO of a node, that node's latest TPDO1 and TPDO2 are the all-zero snapshots. |
| Sdo.WriteCommand | Program.cs:435-441 | A command exists iff the size is 1, 2 or 4. It is the CiA 301 expedited-download byte 0x20 + 4·(4−size) + 3. |
| Sdo.WriteRequest | Program.cs:435-446 | No frame for other sizes. Otherwise an 8-byte frame on 0x600+node that a server reads back as the same index, subindex, data and size. |
| Sdo.WriteRequestExample | Program.cs:443-446 | Control word 0x6040 := 0x0F with size 2 is 2B 40 60 00 0F 00 00 00. |
| Sdo.ReadRequest | Program.cs:469-471 | An 8-byte frame on 0x600+node with four zero data bytes, which a server reads as an upload of the same index and subindex. |
| Sdo.ClassifyWriteReply | Program.cs:508-516 | A frame on another COB-ID or with no data is passed over. On the expected COB-ID, 0x80 aborts, 0x60 confirms, and every other command is passed over. |
| Sdo.AwaitWrite | Program.cs:499-523 | True only if some frame confirms. |
| Sdo.AwaitWriteSpec | Program.cs:499-523 | The write wait succeeds iff some frame confirms and every earlier frame was passed over. A timeout is failure. |
| Sdo.AwaitWriteSkipsForeign | Program.cs:508 | A frame on another COB-ID, wherever it arrives, does not change the outcome. |
| Sdo.ClassifyReadReply | Program.cs:534-552 | 0x80 aborts. 0x4F/0x4B/0x43 with enough bytes always yield the value of the 1/2/4 LE bytes from offset 4, whatever the unused bytes hold; a payload too short for its size is passed over. Any other command on the expected COB-ID ends the wait. |
| Sdo.AwaitRead | Program.cs:525-558 | A nonzero result is the value carried by one of the frames. |
| Sdo.AwaitReadSpec | Program.cs:525-558 | The read wait returns the value of the first frame that is not passed over (0 for an abort or unknown command), or 0 when no frame decides. |
| Sdo.UploadResponseReply | Program.cs:540-549 | A server's expedited upload response of 1, 2 or 4 bytes is classified as carrying exactly the value sent. |
| Sdo.ReadUploadResponse | Program.cs:525-558 | Foreign frames before an upload response do not stop the client from reading the value the server sent. |
| Sdo.WriteSdo | Program.cs:424-456 | Disconnected or unsupported size: nothing sent, false. Otherwise the request frame is sent and the write wait decides. |
| Sdo.ReadSdo | Program.cs:458-481 | Disconnected: nothing sent, 0. Otherwise the read request is sent and the read wait decides. |
| Requests.RequestFrame | Program.cs:435-446 | Every well-formed SDO request becomes a frame the server reads as the same access, and an RPDO2 request becomes a frame carrying its velocity and mode. |
| PdoMapping.MappingEntry | Program.cs:608-609 | A mapping entry holds the index in bits 16-31, the subindex in bits 8-15 and the length in bits 0-7. |
| PdoMapping.EntryWrites | Program.cs:615-617 | The k-th entry write puts the entry of object k into subindex k+1 of the mapping object. |
| PdoMapping.SetupScript | Program.cs:605-611 | The script has four writes more than there are objects, and every write has a size SDO can encode. |
| PdoMapping.SetupScriptEffect | Program.cs:605-611 | Afterwards the PDO is valid on base+node, the count equals the number of objects, and entry k+1 describes object k. |
| PdoMapping.SetupScriptFollowsProcedure | Program.cs:605-611 | Every mapping entry is written while bit 31 of the COB-ID is set and the mapping count is 0. |
| PdoMapping.MappingsMatchCodecs | Program.cs:613-627 | The TPDO1 mapping spans 8 bytes with fields at bytes 0, 2 and 6. TPDO2 spans 5 bytes with the velocity first. RPDO2 spans the 5 bytes the RPDO2 frame carries. |
| Cia402.DecodeStateMatchesTable | Program.cs:699-716 | The decoded state is the one whose CiA 402 bit pattern the word shows. A word that shows none decodes to Not Ready To Switch On. |
| Cia402.OperationEnabledAgrees | Program.cs:39 | The TPDO1 test (sw & 0x6F) == 0x27 holds iff the word decodes to Operation Enabled. |
| Cia402.FaultStatesHaveFault | Program.cs:40 | Fault and Fault Reaction Active words have the fault bit that HasFault tests. |
| Cia402.EnabledAtDecodes | Program.cs:726-741 | The enable loop's Operation Enabled test agrees with decoding the status word. |
| Cia402.ResetFault | Program.cs:718-721 | Fault reset is one control-word write. Its value takes a drive in Fault to Switch On Disabled, and it is the word the enable sequence writes in Fault. |
| Cia402.TransitionCommand | Program.cs:727-751 | A control word is written exactly in Switch On Disabled, Ready, Switched On and Fault, and it is one of 0x06/0x07/0x0F/0x80. From each state on the enable path, an ideal drive comes one step closer to Operation Enabled. |
| Cia402.EnableFrom | Program.cs:723-754 | Success implies some remaining poll saw Operation Enabled. Every request is a status read or a control-word write of 0x06/0x07/0x0F/0x80. |
| Cia402.EnableFromFound | Program.cs:723-754 | When poll k is the first to see Operation Enabled, the loop succeeds after polls 0..k-1 and the k-th read, and writes nothing afterwards. |
| Cia402.EnableFromMissed | Program.cs:723-754 | When no remaining poll sees Operation Enabled, the loop fails after issuing every remaining poll's requests. |
| Cia402.EnableFromStep | Program.cs:726-750 | A poll that does not see Operation Enabled adds its read and control word before the rest of the loop. |
| Cia402.EnableOperationSpec | Program.cs:723-754 | Enabling succeeds iff one of the first ten reads shows Operation Enabled. It issues exactly the requests of the polls before the first one, then that read, and on failure all ten polls. |
| Cia402.EnableOperationSucceeds | Program.cs:723-754 | Operation Enabled within the first ten reads makes enabling succeed. |
| Cia402.Initialize | Program.cs:642-669 | Success is the enable loop's success on the reads after the initial one (and the re-read after a fault). Success ends with mode 0x6060 := 9 (1 byte), then target velocity 0x60FF := 0 (4 bytes). |
| Cia402.InitializeSpec | Program.cs:642-657 | Initialisation succeeds iff one of the ten reads after the initial read(s) shows Operation Enabled. |
| Cia402.InitializeFound | Program.cs:642-664 | When read k after the initial read(s) is the first to show Operation Enabled, the requests are: the initial read(s) and reset, polls 0..k-1, read k, then mode 0x6060 := 9 and target velocity 0x60FF := 0. |
| Cia402.InitializeMissed | Program.cs:642-657 | When none of the ten reads after the initial read(s) shows Operation Enabled, initialisation fails after the initial requests and all ten polls, and writes nothing else. |
| Cia402.InitializeResetsFaultFirst | Program.cs:646-653 | A fault on the first read is reset before any other write. |
| Cia402.InitializeFailureWritesNoMode | Program.cs:656-657 | A failed initialisation issues only status reads and control words: no mode or velocity write. |
| Cia402.StatusWordOf | Program.cs:699-716 | Each state has a word that shows its CiA 402 pattern. |
| Cia402.IdealReachesEnabled | Program.cs:723-754 | Polling an ideal drive while writing the loop's control words reaches Operation Enabled after as many polls as the state's distance. |
| Cia402.IdealDriveEnables | Program.cs:723-754 | Against an ideal drive, enabling succeeds within ten polls from every state except Quick Stop Active. |
| Cia402.ConfigurePdo | Program.cs:601-635 | Afterwards the motor is in PDO mode, and the 19 writes are all SDO writes of encodable sizes. |
| Cia402.ConfigurePdoWrites | Program.cs:605-627 | The configuration writes equal the RPDO2, TPDO1 and TPDO2 scripts word for word. |
| Cia402.Truncate | Program.cs:673 | The (int) cast truncates toward zero: the result is within one of the value, on the zero side. |
| Cia402.CountsRpmRoundTrip | Program.cs:671-681 | RPM computed from counts converts back to the same counts. |
| Cia402.CountsBound | Program.cs:673 | Speeds within ±1500 RPM convert to at most ±250000 counts/s. |
| Cia402.SetVelocity | Program.cs:756-771 | PDO mode sends one RPDO2 with mode 9. SDO mode writes 0x60FF subindex 0 with 4 bytes whose signed reading is the velocity, then control word 0x0F. |
| Cia402.SetVelocityRpm | Program.cs:671-675 | The same requests as SetVelocity (RPDO2 with mode 9, or 0x60FF subindex 0 then 0x0F). The commanded counts, converted back to RPM, have the RPM's sign, are no larger, and are less than one count away. |
| Cia402.GetActualVelocity | Program.cs:773-785 | PDO mode returns the latest TPDO2 velocity (0 if none) without a request. SDO mode reads 0x606C, and the result's unsigned form is the raw reply. |
| Cia402.GetActualVelocityRpm | Program.cs:677-681 | The RPM times 10000/60 is exactly the counts read, so it converts back to them. PDO mode issues no request, SDO mode only the 0x606C read. |
| Cia402.SdoVelocityRoundTrip | Program.cs:766-784 | A velocity written and read back over SDO is the same for every 32-bit value. |
| Cia402.Disable | Program.cs:683-689 | Velocity 0 is commanded, then control word 0x07. That is the enable loop's Switch On word, which read as a status word is the Quick Stop Active pattern. |
| Robot.Clamp | Program.cs:843-844 | The result lies in [-1, 1] and equals the input when the input is already in range. |
| Robot.Axis | Program.cs:839-844 | The axis is in [-1, 1]. It is 0 inside the dead zone (deviation < 35), and elsewhere it is the deviation over 127.5. |
| Robot.AxisOdd | Program.cs:839-844 | Opposite deviations give opposite axis values. |
| Robot.ForwardMirror | Program.cs:835 | Mirroring the left stick byte (255 − y) reverses the forward axis. |
| Robot.DeadzoneBytes | Program.cs:839-840 | An axis is 0 exactly for stick bytes 93..162. |
| Robot.TargetRpm | Program.cs:851-868 | Both wheels are within ±1500 RPM and have the same magnitude, 1500·max(\|forward\|, \|turn\|). When \|forward\| ≥ \|turn\| both wheels run at 1500·forward. Otherwise they are opposite, with the left wheel at 1500·turn. |
| Robot.TieGoesStraight | Program.cs:851-855 | Equal deflections drive straight at the forward speed. |
| Robot.Create | Program.cs:791-800 | A new robot is within the speed limit, counts as standing still, and ignores every controller report until started. |
| Robot.Start | Program.cs:802-806 | A started robot keeps its recorded wheel speeds and accepts a report exactly when R1 is held and 20 ms have passed since the last update. |
| Robot.StartAfterCreate | Program.cs:791-806 | A robot created at time t and started accepts an R1 report from t + 20 ms on. |
| Robot.SetMotorSpeeds | Program.cs:875-889 | A wheel is commanded iff the new speed differs from the last by more than 0.5, at most once and left before right. Its last speed becomes the new speed when commanded and is unchanged otherwise. |
| Robot.Stop | Program.cs:808-813 | The robot stops following the controller. A wheel is sent 0 once, left before right, iff its last speed is more than 0.5 from 0, and only a wheel that is sent changes its last speed. Both last speeds end within 0.5 of 0. |
| Robot.UpdateFromController | Program.cs:815-872 | See the breakdown under this table. |
| Robot.StepBounded | Program.cs:815-872 | A step keeps both recorded speeds within ±1500 RPM and sends none beyond. |
| Robot.RunBounded | Program.cs:815-872 | Over any run of reports, no wheel is ever commanded beyond ±1500 RPM. |
| Robot.TooSoonChangesNothing | Program.cs:831 | An R1 report less than 20 ms after an accepted one changes nothing. |
| Robot.SecondReleaseIsQuiet | Program.cs:820-827 | Of two consecutive reports with R1 released, the second sends nothing. |
| Robot.SteadySticksAreQuiet | Program.cs:875-889 | Repeating an accepted report after the interval sends nothing. |
| Robot.DispatchesAreSendable | Program.cs:867-870 | Every speed a bounded robot sends converts to counts within the 32-bit target velocity. |

`Robot.UpdateFromController` states the following for one controller report:

- A stopped robot is unchanged.
- With R1 released:
  - a wheel is sent 0 iff its last speed is more than 0.5 from 0, at most once and left before right, and no other speed is sent;
  - only a wheel that is sent changes its last speed;
  - both wheels end within 0.5 of 0;
  - the last-update time is kept;
  - nothing happens if both last speeds are within 0.1.
- With R1 held:
  - a report less than 20 ms after the last accepted one changes nothing;
  - otherwise the time is recorded, a wheel is sent its target iff the target is more than 0.5 from its last speed (at most once, left before right), only a wheel that is sent changes its last speed, and each wheel ends within 0.5 of its target.

## Left out

- The gamepad driver (HID enumeration, report reading and parsing). A report is given as its two stick bytes and the R1 flag.
- Connecting and disconnecting the interface, shell commands, and the `candump` monitor process with its line parser, hex decoding and 500-frame retention queue. Frames are given directly as COB-ID and bytes.
- Locks, concurrent collections, threads and events. Everything is single-threaded, and a telemetry update returns its notice as a value.
- Wall-clock time and sleeps. Time is an integer parameter in milliseconds, and an SDO timeout is the end of the frames that arrive.
- Cia402.CountsFromRpm and Cia402.RpmFromCounts use real arithmetic instead of IEEE doubles. The (int) cast is modelled as truncation toward zero.
- Robot.Axis, Robot.TargetRpm and Robot.SetMotorSpeeds use real arithmetic for the C# doubles: the division by 127.5, the scaling by 1500 and the 0.5 and 0.1 thresholds. Every speed the sticks produce is 0, ±1500 or an odd multiple of 1500/255 RPM, so no threshold comparison sits near a rounding boundary.
- Cia402.SetVelocityRpm: it requires the counts to fit in 32 bits, whereas C# leaves an out-of-range cast unspecified. The robot never comes near this (`Robot.DispatchesAreSendable`).
- The boolean results of motor operations that depend on bus replies (for example whether a control-word write was confirmed). Motor operations return the requests they issue. Cia402.ConfigurePdo reports success whatever the replies, as the code does.
- In PDO mode, where a status word comes from. The status read is the latest TPDO1 status word and sends no request; the model takes the sequence of status words observed as given.
- Cia402.Initialize: no outcome for the writes of mode and target velocity, whose replies the code does not check either.
- Robot.UpdateFromController: it does not model the per-wheel motor calls. A step returns the speeds sent, and `Cia402.SetVelocityRpm` turns each into requests.
- `EnablePDOMode`, `GetStatusString`, the program entry point, logging and troubleshooting text.
- SDO upload responses with 3 data bytes (0x47) or without a size indication (0x42). The client treats them as unknown commands and returns 0, and the model keeps that behaviour.
