# CH32 bootloader: a verified model

This project models the two-stage firmware updater for CH32 microcontrollers and proves properties of it
over all inputs, all host behaviours and all flash behaviours.

- Stage 2 is a DFU / DfuSe device: a flash controller driver, the DFU engine, the endpoint-0
  control-transfer machine and the main loop that drives them.
- Stage 1 decides at every boot whether to chain to the application or to enter DFU.
- A small integer `snprintf` produces the DfuSe memory-layout string.

The imperative parts of the original are classes and methods with loops. Each is proved against a
specification (a relation or a function over values), and the properties of whole runs are lemmas about
that specification.

| file | contents |
|---|---|
| `Base.dfy` | machine words, memory map, address arithmetic |
| `Flash.dfy` | `Fmc`: adversarial flash hardware and the driver on top of it |
| `Dfu.dfy` | `Request` and `DataStep` (specification), class `Engine` (code) |
| `Wire.dfy`, `Commands.dfy` | numbers and DfuSe commands as the host writes them, byte by byte |
| `Usb.dfy`, `Device.dfy` | endpoint-0 step functions; one pass of the main loop (`Pass`), whole runs (`Run`), class `Device` (code) |
| `Runs.dfy`, `Errors.dfy`, `Reports.dfy`, `Addressing.dfy`, `Region.dfy` | safety over every run, and what the host reads |
| `Enumeration.dfy`, `Descriptors.dfy` | standard requests and descriptors over every run |
| `Transfer.dfy`, `Download.dfy`, `Image.dfy` | what conforming hosts send, whole downloads, end to end to the next boot |
| `System.dfy` | the code of both stages composed: a whole update and the boot after it |
| `Crc.dfy`, `Gdb.dfy`, `Boot.dfy`, `Firmware.dfy` | checksum, boot decision, firmware files byte by byte |
| `Printf.dfy`, `PrintfCode.dfy`, `PrintfRoundTrip.dfy`, `PrintfShape.dfy`, `Layout.dfy` | formatter, its loops, print/read round trips, what each flag means, layout descriptor |

## Main results

- End to end (`Image.ImageBoots`, `Image.ErasingImageBoots`): any image stage 1 would accept, downloaded with
  any of the usual scripts from any point of any run, with any polls, bus resets, other control transfers and
  idle polls in between, makes the device reset and boots; on a working flash part no assumption about the
  statuses read is needed. `System.UpdateAndBoot` states the same of the code of both stages, one after the
  other, which also shows that such runs exist for every session.
- The 32 KB erase never destroys earlier data of a download in rising order, whether or not every exchange
  succeeds (`Download.AscendingDownload`).
- The device's code implements the specification for every event sequence (`Device.Device.Serve`).
- Every operation ever launched on the flash controller, after failures too, has exactly one mode bit set and
  no stale flag (`Runs.LaunchesClean`), and every error status stands for exactly one kind of failure
  (`Runs.BlockOutcome`, `Runs.EraseOutcome`).
- Reachability, OUT reassembly, IN chunking and preservation of the bootloader hold over whole runs. So do
  error reporting and address deferral, each with the exact condition on the host's traffic.
- `snprintf` refines an unbounded stream of characters; integer conversions can be read back if and only if
  the sign was not lost.
- Changing one covered word always changes the CRC; the CRC unit computes GDB's `crc32` of the image with
  the bytes of each word swapped.

## How the hardware is modelled

- A flash operation launched with a well-formed register setting may leave anything in the page or block it
  names and may raise any flags. An operation launched with any other setting may do anything to all of flash.
  On a part marked `healthy` well-formed operations work. A block erase that ends with END and no error flag
  is taken to have worked; the page paths check themselves.
- FASTSTART clears itself; START may. Waiting for BUSY is part of the operation. STAT is write-1-to-clear.
- Reads outside flash return arbitrary values. Both ways of loading a word in `fmc_write_block` read the same
  little-endian word. The endpoint-0 DMA buffer is separate from the receive buffer.
- One poll handles one event: SETUP, IN, OUT, bus reset or nothing. `system_reset` ends a run.

## Where code and documentation disagree

The model follows the code.

- `system_reset` is called in the same pass that handled the zero-length DNLOAD, before the status stage that
  the comment at src_stage2/dfu.cpp:343 speaks of.
- DETACH leads to a reset, not to a jump into the application.
- README.md:39 promises the algorithm of GDB's `crc32`. That holds with the four bytes of each word reversed
  (`Gdb.UnitIsGdbSwapped`); in memory order it fails for every image in which exactly one word is not a byte
  palindrome, and `Gdb.GdbInMemoryOrder` gives the exact condition.
- Data of a vendor or standard request with code 1 reaches the DFU engine too, so an error status can be lost
  (`Runs.ErrorForgotten`); `Errors.ErrorsAgreeExactly` and `Errors.ErrorsAgreeByPayload` say exactly when.
- GETSTATE shares its code with SET_ADDRESS, so it can bring an old address back (`Addressing.StaleAddress`);
  `Addressing.DeferredAddress` says exactly when.
- A negative number whose zero padding fills the 32-character buffer loses its sign
  (`PrintfRoundTrip.IntegerReads` states exactly when).

## Model

| member | source | states |
|---|---|---|
| `Flash.ErasedWord` | src_stage2/flash.h:347-357 | a word reads as 0xE339E339 exactly if its four bytes are blank |
| `Flash.Fmc.FastUnlock` | src_stage2/flash.h:130-146 | both locks are open afterwards, flash and log unchanged |
| `Flash.Fmc.PageIsErased` | src_stage2/flash.h:347-357 | true if and only if the whole page is blank |
| `Flash.Fmc.Conclude` | src_stage2/flash.h:184-204 | success exactly if END and nothing else was raised; all flags and mode bits clear again on every path |
| `Flash.Fmc.ErasePage` | src_stage2/flash.h:170-205 | only the page changes; success exactly if the operation raised END alone and the page is blank; one clean launch is logged, registers return to rest |
| `Flash.Fmc.Erase32k` | src_stage2/flash.h:211-238 | only the block changes; success exactly if END alone was raised, and then it is blank |
| `Flash.Fmc.EraseRange` | src_stage2/flash.h:245-254 | pages are erased in order up to the first failure; only the range changes, success means all of it is blank |
| `Flash.CacheHolds` | src_stage2/flash.h:265-295 | 64 words stored in order make the write cache hold exactly the 256 source bytes |
| `Flash.Fmc.WriteBlock` | src_stage2/flash.h:265-317 | success exactly if END alone was raised; only the page changes; on a working part and a blank page it holds the data; one clean program launch is logged |
| `Flash.ProgressStep` | src_stage2/flash.h:326-338 | one more page of a multi-page write keeps the frame and extends what is held |
| `Flash.Fmc.Write` | src_stage2/flash.h:326-338 | only the rounded-up pages change; they are programmed once each, in order, up to the first that fails, and hold the data on a working part |
| `Flash.Fmc.Verify` | src_stage2/flash.h:366-376 | true if and only if flash holds the bytes |
| `Dfu.Engine.HandleRequest` | src_stage2/dfu.cpp:52-166 | new state and response of every class request |
| `Dfu.SectorReach` | src_stage2/dfu.cpp:207-216 | which erase runs decides how far it reaches, and that reach stays in flash |
| `Dfu.Engine.SectorIsErased` | src_stage2/dfu.cpp:187-198 | true if and only if the 4 KB sector is blank |
| `Dfu.Engine.EraseCommand` | src_stage2/dfu.cpp:184-229 | blank sectors are left alone; otherwise only the sector or its 32 KB block changes, OK means blank, and the status says how the operations launched went |
| `Dfu.Engine.ErasePages` | src_stage2/dfu.cpp:249-262 | every page a block will touch is blank on success, nothing else changes, only pages that were not blank are erased, failure means an erase failed |
| `Dfu.PagesFit` | src_stage2/dfu.cpp:241-264 | rounding a block up to pages never passes the end of flash |
| `Dfu.Engine.Burn` | src_stage2/dfu.cpp:249-276 | the pages programmed are exactly the pages made blank, in order; each of the four results if and only if what it stands for happened |
| `Dfu.Engine.WriteAndVerify` | src_stage2/dfu.cpp:264-276 | a write error exactly if the latest program did not end with END alone, a verify error exactly if the contents differ |
| `Dfu.Engine.ProgramBlock` | src_stage2/dfu.cpp:239-279 | a data block does one `DataStep` and leaves one `DataTrace`: refused without effect if it does not fit, else frame, contents, operations and the status they explain |
| `Dfu.Engine.HandleData` | src_stage2/dfu.cpp:170-280 | every payload, address and flash behaviour does one `DataStep` and leaves one `DataTrace` |
| `Commands.OperandRead` | src_stage2/dfu.cpp:175-177 | the operand is exactly the number the host spelled, lowest byte first, for every 32-bit address |
| `Commands.CommandRead` | src_stage2/dfu.cpp:172-236 | SET_ADDRESS exactly for 0x21, erase exactly for 0x41, with exactly that operand; shorter payloads are ignored, other bytes unknown |
| `Commands.BlockRead` | src_stage2/dfu.cpp:239-241 | where block numbers from 2 on land, and that block 1 and empty payloads do nothing |
| `Device.Device.Ep0Send` | src_stage2/usb.cpp:109-119 | arms at most 64 bytes with the current toggle, which flips |
| `Device.Device.RouteRequest` | src_stage2/usb.cpp:136-286 | pending address, engine state and response of every SETUP |
| `Device.Device.PollSetup` | src_stage2/usb.cpp:375-441 | the stage that follows every SETUP |
| `Device.Device.PollIn` | src_stage2/usb.cpp:443-480 | next packet, end of stage, or the deferred address taking effect |
| `Device.Device.Receive` | src_stage2/usb.cpp:488-492 | a packet is appended whole or dropped whole |
| `Device.Device.PollOut` | src_stage2/usb.cpp:482-517 | OUT data is buffered, and a finished DNLOAD stage is handed to the engine |
| `Device.Device.Poll` | src_stage2/usb.cpp:362-544 | every event does what the step specification says |
| `Device.Device.Turn` | src_stage2/dfu.cpp:325-351 | one turn of the main loop is one `Pass`, and it resets exactly in the two reset states |
| `Device.Device.Serve` | src_stage2/dfu.cpp:325-351 | the main loop over any events is a `Run`, ending at the first reset |
| `Device.PassKeepsHead` | src_stage2/usb.cpp:362-544 | data-in reads stay inside the response and the receive buffer is never overrun, in every state |
| `Runs.Reachable` | src_stage2/dfu.cpp:325-351 | only six states are ever polled in; a reset follows exactly a class DETACH or zero-length DNLOAD; an error status implies the error state |
| `Runs.ErrorsAgree` | src_stage2/dfu.cpp:80-161 | for a disciplined host a pending block implies dfuDNLOAD-SYNC, and error state and error status coincide |
| `Runs.ErrorSticks` | src_stage2/dfu.cpp:58-166 | an error stays until DETACH, DNLOAD, UPLOAD, CLRSTATUS or ABORT |
| `Runs.ErrorReported` | src_stage2/dfu.cpp:112-155 | every GETSTATUS and GETSTATE meanwhile reports it |
| `Runs.ErrorForgotten` | src_stage2/usb.cpp:499-507 | without that discipline: a run that ends in the error state with status OK |
| `Reports.StatusReply` | src_stage2/dfu.cpp:113-140 | GETSTATUS in the numbers of DFU 1.1: status, 10 ms, the state it moves to |
| `Reports.StateReply` | src_stage2/dfu.cpp:147-155 | GETSTATE in the numbers of DFU 1.1 |
| `Reports.ClearedReport` | src_stage2/dfu.cpp:141-161 | after CLRSTATUS or ABORT, from any state, the next poll reads status 0 and state 2 |
| `Reports.UploadReport` | src_stage2/dfu.cpp:102-111 | UPLOAD is answered with no data, and the next poll reads status 0 and state 9 |
| `Reports.DownloadPolls` | src_stage2/dfu.cpp:113-140 | after a DNLOAD that went well successive polls read states 4, 5 and 5 |
| `Reports.DownloadState` | src_stage2/dfu.cpp:147-155 | before the first poll GETSTATE reads 3 |
| `Reports.FailureReport` | src_stage2/dfu.cpp:113-140 | after a DNLOAD that failed the poll reads state 10 and the number of the error |
| `Reports.CommandOutcome` | src_stage2/dfu.cpp:172-236 | in every run and in literal bytes: SET_ADDRESS, unknown commands and payloads that do nothing |
| `Reports.Acknowledged` | src_stage2/usb.cpp:389-400 | requests without data are acknowledged with an empty DATA1 packet |
| `Errors.PendingBlock` | src_stage2/usb.cpp:428-439 | for any host, the state a pending block is waiting in |
| `Errors.PendingExactly` | src_stage2/usb.cpp:428-507 | a pending block always means dfuDNLOAD-SYNC if and only if every non-class code-1 stage was opened in that state |
| `Errors.ErrorsAgreeExactly` | src_stage2/dfu.cpp:170-280 | for any host and flash, error state and error status always agree if and only if no command is taken with success in the error state |
| `Errors.ErrorOrigin` | src_stage2/usb.cpp:499-507 | what reaches the engine in the error state was sent in a stage that a non-class code-1 SETUP opened |
| `Errors.ForgetsByPayload` | src_stage2/dfu.cpp:170-280 | which payloads lose an error: SET_ADDRESS always, erases and fitting blocks exactly if they succeed, as they do on working flash |
| `Errors.ErrorsAgreeByPayload` | src_stage2/dfu.cpp:170-280 | on working flash the two always agree if and only if no such payload is handed over in the error state |
| `Errors.NoWipesNoLoss` | src_stage2/dfu.cpp:170-280 | on any flash a host that hands over no such payload in the error state never loses an error |
| `Runs.OutPacket` | src_stage2/usb.cpp:482-516 | one packet extends the stage by its bytes or ends it and delivers the stream |
| `Runs.OutStage` | src_stage2/usb.cpp:428-516 | the buffer holds the first 4096 bytes of the stream; at most one delivery, of exactly those bytes; the end of the stage, and nothing else, is acknowledged |
| `Runs.DeliveryOrigin` | src_stage2/usb.cpp:482-534 | a data stage cut off by a SETUP or a reset is never delivered |
| `Runs.FlashMoves` | src_stage2/usb.cpp:499-507 | flash changes, and operations are launched, only in a turn that hands a command over |
| `Runs.LaunchesClean` | src_stage2/flash.h:170-317 | over whole runs, failures included: every operation ever launched had exactly one mode bit, no stale flag and the controller unlocked |
| `Runs.BlockOutcome` | src_stage2/dfu.cpp:239-279 | in every run: refused and unchanged exactly if the block does not fit, else only its pages change, OK means they hold the data, and each error status stands for exactly one kind of failure |
| `Runs.EraseOutcome` | src_stage2/dfu.cpp:184-229 | in every run the erase command refines a 4 KB erase; more changes only inside a 32 KB block it starts; the status follows from the operations launched |
| `Runs.InPacket` | src_stage2/usb.cpp:443-469 | an acknowledged packet is followed by the next one or ends the stage with everything sent |
| `Runs.InStage` | src_stage2/usb.cpp:412-469 | packets concatenate to the response cut to wLength, all but the last full, toggles alternate from DATA1 |
| `Runs.InStageEnds` | src_stage2/usb.cpp:443-480 | every IN token takes 64 bytes of the body until none are left, and then the stage has ended |
| `Enumeration.RequestTypes` | src_stage2/usb.cpp:281-285 | which bmRequestType values are standard, class and device-to-host |
| `Enumeration.StandardRead` | src_stage2/usb.cpp:148-252 | GET_DESCRIPTOR reads the descriptor that wValue names, cut to wLength, GET_CONFIGURATION the byte 1 |
| `Enumeration.StandardEnds` | src_stage2/usb.cpp:443-480 | after as many IN tokens as the answer has packets |
| `Enumeration.WholeDescriptor` | src_stage2/usb.cpp:148-243 | a host that asks for enough gets the whole descriptor |
| `Enumeration.Unsupported` | src_stage2/usb.cpp:253-286 | other standard and vendor requests are answered with no data and leave the engine alone |
| `Descriptors.GetDescriptor` | src_stage2/usb.cpp:148-243 | the descriptor for every wValue, strings built in the 100-byte buffer |
| `Descriptors.StringsRead` | src_stage2/usb.cpp:203-243 | which string, language table or binary descriptor each wValue names |
| `Descriptors.DescriptorReads` | src_stage2/usb.cpp:234-241 | a string descriptor carries its own length, the type 3 and the string |
| `Descriptors.LayoutOverUsb` | src_stage2/usb.cpp:218-243 | a host that reads string 4 in any run gets bytes whose text parses to the two segments |
| `Addressing.RegisterFollows` | src_stage2/usb.cpp:375-534 | for any host, the address register and the pending address as functions of the events alone |
| `Addressing.DeferredAddress` | src_stage2/usb.cpp:465-478 | over any run the register is always 0 or the last address accepted since the bus reset, if and only if no code-5 request other than SET_ADDRESS completes while another address was asked for last |
| `Addressing.OrderlyHost` | src_stage2/usb.cpp:465-534 | a host that lets each SET_ADDRESS finish and sends GETSTATE only once addressed never makes such a step |
| `Addressing.SetupKeepsAddress` | src_stage2/usb.cpp:143-146 | for any host a SETUP never changes the address register |
| `Addressing.StaleAddress` | src_stage2/usb.cpp:525-534 | a run in which GETSTATE after a bus reset brings the old address back |
| `Region.DataStaysAbove` | src_stage2/dfu.cpp:179-264 | a confined command changes nothing below APP_ADDRESS |
| `Region.BootloaderPreserved` | src_stage2/dfu.cpp:170-280 | over whole runs of a confined host no byte below APP_ADDRESS changes |
| `Transfer.DownloadDelivers` | src_stage2/usb.cpp:428-516 | a conforming DNLOAD of 1 to 4096 bytes hands over exactly those bytes, exactly once |
| `Transfer.PollDone` | src_stage2/dfu.cpp:112-140 | a GETSTATUS transfer reports the state it moves to and touches nothing else |
| `Transfer.InterludeRun` | src_stage2/usb.cpp:375-544 | other control transfers, finished or not, and bus resets hand nothing to the engine and leave flash and target alone |
| `Transfer.ItemRun` | src_stage2/dfu.cpp:170-280 | a DNLOAD and its GETSTATUS are one `DataStep`, and the status read is the engine's |
| `Download.Stutter` | src_stage2/dfu.cpp:325-351 | polls that find nothing can be left out of any run |
| `Download.ScriptChain` | src_stage2/dfu.cpp:170-280 | the run of a script is a chain of exchanges; all statuses read after downloads are OK exactly if no download failed |
| `Download.ItemEffect` | src_stage2/dfu.cpp:184-279 | an exchange in rising order, failed or not, changes nothing below what was written before |
| `Download.AscendingDownload` | src_stage2/dfu.cpp:184-279 | coarse erase is safe in rising order, failures included: flash ends up holding every piece whose own status was OK |
| `Download.HealthyScript` | src_stage2/dfu.cpp:170-280 | on working flash every download of a fitting script reads OK, from any state |
| `Download.ManifestResets` | src_stage2/dfu.cpp:335-345 | any class DNLOAD of length zero resets and leaves flash alone |
| `Download.ScriptHeld` | src_stage2/dfu.cpp:170-280 | a rising script that went well leaves every piece in flash, from any state and with idle polls in between |
| `Download.DownloadThenBoot` | src_stage1/main.cpp:147-190 | from any state of the device, a good image downloaded in rising order is bootable after the reset |
| `Image.TargetBytes` | src_stage2/dfu.cpp:176-182 | the five bytes that set the target to APP_ADDRESS |
| `Image.BlocksWork` | src_stage2/dfu.cpp:239-241 | blocks numbered upwards rise, fit and put the image together |
| `Image.OnlyDownloadsCount` | src_stage2/dfu.cpp:112-140 | polls and other traffic between downloads change neither what a script writes nor whether it rises and fits |
| `Image.TargetAtEnd` | src_stage2/dfu.cpp:179-183 | setting the target once more at the end does not matter |
| `Image.ImageScriptWorks` | src_stage2/dfu.cpp:170-280 | SET_ADDRESS and blocks 2, 3, ..., with any polls and other traffic in between, assemble the image at APP_ADDRESS |
| `Image.SectorScriptWorks` | src_stage2/dfu.cpp:184-279 | so does erasing, pointing and writing sector by sector |
| `Image.EraseFirstWorks` | src_stage2/dfu.cpp:184-279 | so does erasing any sectors first |
| `Image.ScriptBoots` | src_stage1/main.cpp:147-190 | end to end for any rising script, carried out from any point of any run, with other traffic and idle polls in between |
| `Image.DeliveryBoots` | src_stage1/main.cpp:147-190 | the same for scripts that need no particular target to start from |
| `Image.ImageBoots` | src_stage1/main.cpp:147-190 | end to end for the plain script, from any point of any run |
| `Image.ErasingImageBoots` | src_stage1/main.cpp:147-190 | end to end for the scripts that erase, from any point of any run |
| `Firmware.AcceptedExactly` | src_stage1/main.cpp:155-180 | in literal bytes: a firmware file is accepted exactly if its size is sane and it is a development file or carries GDB's checksum of the swapped words |
| `Firmware.ReasonsRead` | src_stage1/main.cpp:147-180 | which reason bit refuses which file: 1 marker, 2 pin, 8 checksum, 16 size |
| `Firmware.BootFirmware` | src_stage1/main.cpp:123-206 | the code of stage 1 on memory that holds a firmware file at 0x4000 |
| `Firmware.FirmwareBoots` | src_stage1/main.cpp:147-190 | end to end in literal bytes, from any point of any run |
| `System.WholeSession` | src_stage2/dfu.cpp:325-351 | the main loop gets through any traffic, a whole script and the zero-length DNLOAD, and resets only then |
| `System.Update` | src_stage2/dfu.cpp:305-352 | the code of stage 2 serves any such session from power-up and resets; such runs exist for every session |
| `System.UpdateAndBoot` | src_stage1/main.cpp:123-206 | the code of both stages, one after the other, for any session: the application boots if the flash works or every status read was OK, exactly if pin high and marker clear |
| `Crc.ShiftInjective` | src_stage1/ch32_crc.c:55-65 | one shift of the CRC register loses nothing |
| `Crc.AbsorbInWord` | src_stage1/ch32_crc.c:60-63 | from one state, different words lead to different states |
| `Crc.AbsorbInState` | src_stage1/ch32_crc.c:60-63 | one word keeps different states apart |
| `Crc.OneChangeShows` | src_stage1/ch32_crc.c:55-65 | any fold of a step with both properties tells apart runs that differ in one place |
| `Crc.OneWordDetected` | src_stage1/ch32_crc.c:48-66 | two images that differ in exactly one word never share a CRC |
| `Gdb.WordsAreBytes` | src_stage1/ch32_crc.c:48-66 | for any linear shift register, word by word equals byte by byte through the table |
| `Gdb.RunIsFold` | README.md:39 | GDB's algorithm, defined by itself with its own constants and table, is the table-driven form of the unit's register |
| `Gdb.UnitIsGdbSwapped` | README.md:39 | the unit's CRC is GDB's of the same bytes swapped within each word |
| `Gdb.SameCrc` | src_stage1/ch32_crc.c:48-66 | two runs of words share a CRC if and only if their difference folded from zero vanishes |
| `Gdb.GdbIsUnitSwapped` | README.md:39 | GDB's checksum in memory order is the unit's of the byte-swapped words |
| `Gdb.GdbInMemoryOrder` | README.md:39 | for images of any length, when unit and GDB agree in memory order: exact condition; always if every word is a byte palindrome, never if exactly one is not |
| `Gdb.VerdictByGdb` | src_stage1/main.cpp:163-175 | stage 1 accepts exactly the headers that carry GDB's checksum of the swapped words |
| `Boot.RebootTwice` | src_stage1/main.cpp:40-55 | asking for DFU works once: the next boot enters DFU because of the marker, the one after decides as if never asked |
| `Boot.Stage1.ClearRebootFlags` | src_stage1/main.cpp:46-47 | clears the marker |
| `Boot.Stage1.Ch32Crc` | src_stage1/ch32_crc.c:48-66 | the loop computes the CRC of exactly the given words |
| `Boot.Stage1.Decide` | src_stage1/main.cpp:123-206 | boots the application if and only if marker clear, pin high and image accepted; reasons and cleared marker |
| `Boot.SameVerdict` | src_stage1/main.cpp:155-180 | the verdict depends on size, checksum and covered words, and on nothing else |
| `Boot.GoodImageBoots` | src_stage1/main.cpp:155-190 | a good image at APP_ADDRESS boots whatever surrounds it |
| `Boot.TamperingDetected` | src_stage1/main.cpp:163-175 | changing any one covered word of a checksummed bootable image sends boot to DFU |
| `PrintfCode.Sink.Put` | src_stage2/embedded_printf/printf.c:128-134 | the stream grows by one character; memory changes only below the count |
| `PrintfCode.Sink.OutRev` | src_stage2/embedded_printf/printf.c:196-226 | emits the reversed buffer in its field |
| `PrintfCode.Sink.NtoaFormat` | src_stage2/embedded_printf/printf.c:229-295 | padding, prefix and sign as specified, inside the 32-character buffer |
| `PrintfCode.WriteDigits` | src_stage2/embedded_printf/printf.c:310-319 | the digit loop leaves exactly the digits, lowest first, and never overruns the buffer |
| `PrintfCode.Sink.NtoaLong` | src_stage2/embedded_printf/printf.c:298-322 | emits the formatted number |
| `PrintfCode.Sink.PutInteger` | src_stage2/embedded_printf/printf.c:788-885 | every integer conversion emits its specified text |
| `PrintfCode.Sink.PutString` | src_stage2/embedded_printf/printf.c:935-966 | the 's' conversion: cut at NUL and precision, aligned in its field |
| `PrintfCode.Sink.Interpret` | src_stage2/embedded_printf/printf.c:646-1008 | the interpreter emits exactly the text of the format |
| `PrintfCode.Atoi` | src_stage2/embedded_printf/printf.c:185-193 | reads the leading digits in unsigned 32-bit arithmetic |
| `PrintfCode.StrNLen` | src_stage2/embedded_printf/printf.c:171-177 | length up to NUL or limit |
| `PrintfCode.Sink.Terminate` | src_stage2/embedded_printf/printf.c:1003-1004 | the NUL goes after the text, or into the last cell if the text was cut |
| `PrintfCode.Snprintf` | src_stage2/embedded_printf/printf.c:1031-1038 | returns the untruncated length; the buffer holds the first min(length, count-1) characters and NUL, nothing at or past count is written |
| `PrintfCode.SmallerCountIsPrefix` | src_stage2/embedded_printf/printf.c:1003-1007 | a smaller count gives a prefix of what a larger one gives, for any text |
| `PrintfRoundTrip.DigitsRead` | src_stage2/embedded_printf/printf.c:298-322 | digits read back as the number in every base from 2 to 16 |
| `PrintfRoundTrip.IntegerReads` | src_stage2/embedded_printf/printf.c:834-884 | every integer conversion without '#' reads back as the argument if and only if the sign was not lost |
| `PrintfRoundTrip.FieldWidth` | src_stage2/embedded_printf/printf.c:229-295 | the field is at least as wide as asked for, if and only if zero padding is not cut at 32 |
| `PrintfRoundTrip.AtoiInverts` | src_stage2/embedded_printf/printf.c:185-193 | `_atoi` inverts decimal printing |
| `PrintfShape.FlagLetters` | src_stage2/embedded_printf/printf.c:677-708 | what each flag letter sets |
| `PrintfShape.LengthLetters` | src_stage2/embedded_printf/printf.c:748-783 | what each length letter sets |
| `PrintfShape.StarMeaning` | src_stage2/embedded_printf/printf.c:710-745 | width and precision from arguments, negative ones included |
| `PrintfShape.GivenMeaning` | src_stage2/embedded_printf/printf.c:834-884 | which bits of the argument count, and whether as two's complement |
| `PrintfShape.IntegerShape` | src_stage2/embedded_printf/printf.c:229-295 | the anatomy of a number: blanks, sign character, zeros, digits without leading zeros in the right case and base, blanks, and on which side each may be |
| `PrintfShape.HashExactly` | src_stage2/embedded_printf/printf.c:250-276 | the prefix that '#' writes, and exactly when it overwrites digits |
| `PrintfShape.HashCutsDigits` | src_stage2/embedded_printf/printf.c:250-276 | `%#4x` of 0x1234 keeps only two digits |
| `PrintfShape.ShownMeaning` | src_stage2/embedded_printf/printf.c:935-958 | `%s` shows the string up to its NUL or the precision |
| `PrintfShape.FieldMeaning` | src_stage2/embedded_printf/printf.c:910-966 | strings and characters are never cut by the width, and padded on the left, or on the right with '-' |
| `PrintfShape.OtherConversions` | src_stage2/embedded_printf/printf.c:910-998 | `%%` and `%c` |
| `Layout.FormatParts` | src_stage2/usb.cpp:226-228 | the format string taken apart at its directives |
| `Layout.LayoutPrinted` | src_stage2/usb.cpp:226-228 | the format prints the layout for any sector counts |
| `Layout.LayoutReads` | src_stage2/usb.cpp:218-229 | the layout parses back to a bootloader and an application segment |
| `Layout.SegmentsTile` | src_stage2/dfu.cpp:319 | the segments tile flash with the boundary at APP_ADDRESS |
| `Layout.BuildDescriptor` | src_stage2/usb.cpp:234-241 | the UTF-16 descriptor of a string, and nothing past it |
| `Layout.DfuseDescriptor` | src_stage2/usb.cpp:218-243 | with at most five digits nothing is truncated, it fits 100 bytes and its length byte is the length sent |
| `Layout.LayoutLength` | src_stage2/usb.cpp:226-228 | how long the layout string is |

## Left out

- Clock, GPIO, LED, PFIC and peripheral set-up, `usb_init` and the tick counter: register pokes without a deep property.
- Start-up code, linker scripts and the jump in `chain_to`: the jump is a boot outcome.
- `esprit_mini/system_timer.cpp`: not on the download path.
- Floating-point and 64-bit printf: compiled out. The 64-bit length modifiers are scanned and then treated as the original does without 64-bit support.
- `printf_`, `sprintf_`, `vprintf_` and `fctprintf`: other front ends of the same interpreter.
- Endpoints 1 to 7: their tokens are polled and ignored, as in the original.
- Timing of busy waits, and a flash operation that never ends.
- Dfu.Engine.HandleData: for targets that are not page-aligned, or addresses that wrap around, only the status and state are specified, not the flash contents, because what the hardware does there is unknown.
- Region.BootloaderPreserved: assumes page-aligned targets for the same reason.
- PrintfRoundTrip.IntegerReads: excludes '#', whose prefix is not part of the number; `PrintfShape.HashExactly` says when it costs digits.
- PrintfCode.Snprintf: covers formats whose conversions are complete and have their arguments; INT_MIN with `%d` and a width argument of INT_MIN are excluded because negating them overflows in C. The output index is unbounded, without the overflow of the returned int at 2^31 characters.
- Layout.DfuseDescriptor: assumes at most five digits in the two sector counts; longer ones would not fit the 100-byte buffer.
- Device.Device.RouteRequest: the descriptors are a parameter of the device; `Descriptors.Describe` says what they are, with the bytes of the device and configuration descriptors and the three plain strings as parameters in turn.
- Errors.ErrorsAgreeByPayload: assumes erases and blocks whose outcome on working flash is known, that is sectors of flash and page-aligned blocks that do not wrap; Errors.ErrorsAgreeExactly has no such assumption.
- Order within a pass: the acknowledgement of an OUT stage is armed after the data is handled in the original; the model's result does not depend on that order.
