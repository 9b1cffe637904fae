# A model of the utinydrm display driver stack

utinydrm drives small SPI displays from user space. An application draws into
framebuffers; events tell the driver what changed; the driver merges the dirty rectangles,
sets the panel's address window and sends the pixels over one of two serial interfaces. This
project models that path in Dafny and proves what it does, from the list of framebuffers down
to the bits on the wire and back up to the panel's frame memory.

`dafny verify dfyconfig.toml` checks the whole project.

## Parts

| file | contents |
|---|---|
| `Bytes.dfy`, `NineBit.dfy` | the receiver of MIPI DBI Type C Option 1 (9-bit frames); packing of eight words into nine bytes |
| `Option1.dfy`, `Option1Decode.dfy` | the emulated Option 1 encoder, and what the receiver makes of it for every length |
| `Option3.dfy` | chunked transfers with a D/C pin and the byte-swapping bounce buffer |
| `Transport.dfy`, `Interface.dfy`, `Regmap.dfy` | register writes over both interfaces, the gather writes and the register map |
| `Readback.dfy` | reads that arrive one dummy clock late |
| `Wire.dfy` | either interface as a link: what the panel hears of complete and failed register writes |
| `Clips.dfy`, `Panel.dfy`, `Flush.dfy`, `EndToEnd.dfy` | dirty rectangles, the panel's address window and frame memory, the flush, and the flush over the wire |
| `Delivery.dfy` | what a flush leaves in frame memory for every link and every outcome of its writes |
| `FbList.dfy`, `Pipeline.dfy`, `Device.dfy`, `Mirror.dfy` | framebuffer list, pipeline state machine, the objects behind it, and the panel against the framebuffers over whole runs |
| `Power.dfy` | whether the panel is on and awake, its pixel format and its orientation |
| `ListHead.dfy` | the circular doubly linked list and the message list |
| `HexDump.dfy` | the bounded hex dump |
| `SpiBus.dfy`, `Spidev.dfy` | the bus below the encoders, and the requests made of the spidev device |
| `Kernel.dfy`, `Arith.dfy`, `Base.dfy` | highest bit, powers of two and alignment; arithmetic lemmas; shared definitions |

## How the code is represented

- Loops and in-place updates stay loops and in-place updates: each such method is proved against
  a specification function, and the properties are proved about those functions.
- A pointer that is only read is a function from offsets to bytes, so reads past the caller's
  length are defined and can be described.
- Which SPI messages and allocations succeed is fixed beforehand and unknown to the driver
  (`SpiBus.SpiMaster.meets`), and the results hold for every such choice. So "fails only if a
  message fails" can be said and counted: on a link that is ready, no more register writes are
  missing than there were failures (`Device.Device.Excused`). Everything else the hardware or the
  operating system decides is part of the event (`Pipeline.EnableIo`, `Pipeline.DirtyIo`).
- A single SPI message that fails leaves nothing on the wire; a register write that fails may have
  sent any number of messages before. The state machine and the panel model allow a failed write
  to have sent any number of bytes (`Wire.Reach`), which also covers messages cut up further by
  `spi_buf_transfer`.
- The event handlers of `Device.Device` send through the register map down to the bus log.
  Their contracts give the event with the bus's answers filled in: the new state is the state
  machine's step for it, and what the panel makes of the new part of the log is what that event
  says (`Device.Spoken`), which is the step of the whole-run model (`Device.WorldHears`).
- A link (`Wire.Link`) is an interface with the controller's word sizes and DMA limit. On a
  controller with 16-bit words the two bytes of every pixel arrive exchanged over Option 3, so
  the whole-run results speak of the pixel as the link presents it (`Delivery.Mirrors`), which is
  the framebuffer's pixel on every other link (`Delivery.Shows`).
- A receiver left inside a frame by Option 1 makes of what follows whatever it likes, until it is
  back at the start of a frame; when that happens (chip select, reset) is left open in every
  step (`Mirror.Happening`).
- The panel's frame memory has no edges; a window that reaches beyond the display is accepted.
- u8, u16, u32 and u64 are bit-vectors where the code shifts and masks; elsewhere unsigned int
  arithmetic is written with an explicit modulus.
- The machine is little-endian, and `unsigned long` has 64 bits.
- Methods take the ring or the list they work on as a ghost sequence of nodes; ownership is
  stated by `modifies`.

## Where the code differs from its evident intent

Each of these is proved exactly, in both directions where that makes sense.

1. The 16-bit tail loop of the Option 1 encoder is bounded by `chunk / 2` although it counts
   bytes, so of a tail of 4 or 6 bytes the last 2 are not sent (mipi-dbi.c:206;
   `Option1Decode.RoundTrip`, `Option1Decode.CoveredIs`; for two pixels `Option1Decode.TwoPixels`).
   A tail of an odd number of bytes is not exact either.
2. A last chunk of eight bytes or more that is no multiple of eight runs past the source and ends
   the transfer inside a frame (mipi-dbi.c:214-256; `Option1Decode.ReceiveData`; for 28 bytes
   `Option1Decode.TwentyEightBytes`).
3. `spi_sync` always asks the controller for 8-bit words (spi.c:76-77), but 16-bit pixels are
   swapped only when the controller lacks 16-bit words. On a controller that has them, as the one
   configured at utinydrm.c:417 (`Option3.ConfiguredMask`), pixels go out low byte first
   (`Transport.Words3Meant`; for one pixel `Transport.NativeWidthDiffers`). A kernel that swaps
   them itself is not part of this model.
4. The end address of the window takes its high byte from the exclusive end, so it is 256 too
   large when that is a multiple of 256 (mipi-dbi.c:596, 599; `Flush.WindowEnd`,
   `Flush.WindowEndAt256`). A window with too many lines does no harm, one with too many columns
   only to clips of several lines (`Flush.PlacedAt`, `Flush.LastPixelMissed`).
5. The source address of a flush uses the clip's width instead of the pitch and ignores the left
   edge (tinydrm-regmap.c:144, 148; `Flush.SourceExact`, `Flush.SourceAtSecondPixel`).
6. Destroying a framebuffer that is not at the head of the list also unlinks the one before it
   (utinydrm.c:250-254; `FbList.DestroyExact`, `FbList.DestroyLosesPredecessor`,
   `FbList.DestroySecond`).
7. A failed soft reset leaves the regulator enabled without the panel being prepared
   (mi0283qt.c:105-110; `Pipeline.SupplyBalanced`, `Pipeline.FailedReset`).
8. The results of the two address commands are ignored, so the backlight can come on and the
   pipeline count as flushed although the window was not set (mipi-dbi.c:594-610;
   `Mirror.LightOverNothing`). When a flush does show its clip is settled by
   `Delivery.FlushShowsIff`, for every outcome of the three writes.
9. The results of the initialisation are ignored, so a panel can count as prepared and be dark
   (mi0283qt.c:114-175; `Power.LostDisplayOn`).
10. For empty input `hex_dump_to_buffer` returns 0, or with an empty buffer the character column
    or -1 (`HexDump.HexDumpToBuffer`).

Positive results over whole runs: `Pipeline.InvariantRun` and `Pipeline.DisabledRun` for the state
machine, `Power.PreparedIsLit` for whether the panel is on, `Mirror.MirrorRun` and
`Mirror.FramesShow` for panel memory, also across flushes that fail half way,
`Transport.CommandsArrive` for any sequence of register writes, `EndToEnd.WireMirrors` from the
bits of a flush to the picture, and `Device.Device.Handle` from the objects to what the panel hears.

## Model

| member | source | states |
|---|---|---|
| `Bytes.ReceiveConcat` | mipi-dbi.c:119-125 | The receiver of Type C Option 1 (cutting the byte stream into 9-bit frames, most significant bit first) works transfer by transfer: whole 9-byte blocks decode independently of what follows, and leave no partial frame |
| `NineBit.ShiftInto` | mipi-dbi.c:127-131 | `SHIFT_U9_INTO_U64` places a set D/C bit and a byte into exactly one empty 9-bit place of the u64 and leaves the other six places as they are |
| `NineBit.BigEndian` | include/linux/kernel.h:80-90 | `cpu_to_be64` stored on a little-endian machine puts the most significant byte first |
| `NineBit.StoreHeld` | mipi-dbi.c:229-233 | Seven held words, the D/C bit of the eighth in bit 0 and then the eighth byte are, in memory, the nine bytes of a block of eight words |
| `NineBit.ReceivePack` | mipi-dbi.c:217-253 | The receiver gets back the eight words of any packed block |
| `Option1.ClampSize` | mipi-dbi.c:106-117 | The clamped size is a multiple of four within the DMA limit and within the size asked for |
| `Option1.ClampIsLargest` | mipi-dbi.c:106-117 | And no larger multiple of four is, so that the size asked for decides below the DMA limit |
| `Option1.EightNinths` | mipi-dbi.c:148-150 | A clamp of at least nine bytes gives a source chunk of at least eight, a multiple of eight, whose 9/8 expansion fits the clamp |
| `Option1.SourceChunk` | mipi-dbi.c:178-181 | The recomputed source chunk is a positive multiple of eight and no larger than the limit |
| `Option1.Gather8` | mipi-dbi.c:220-233 | The 8-bit branch of the block loop: u64 and ninth byte are the packed block of eight data words in order; eight source bytes are consumed |
| `Option1.Gather16` | mipi-dbi.c:234-250 | The 16-bit branch: through the place order 1,0,3,2,5,4, the separately kept seventh byte and place 6, the block holds each little-endian u16 high byte first |
| `Option1.EncodeTail` | mipi-dbi.c:197-213 | A last chunk below eight becomes its data words padded with no-ops at the end; in 16-bit mode the loop bound `chunk / 2` sends only the first 0, 2 or 4 bytes (`TailSent`) |
| `Option1.EncodeBlocks` | mipi-dbi.c:217-254 | The block loop stays inside the bounce buffer and leaves the packed blocks of the source, rounding a partial last block up |
| `Option1.EncodeChunk` | mipi-dbi.c:193-256 | One chunk: what is in the transfer buffer and how much of it is sent, for padded, whole and overrunning chunks; the sent length fits the buffer |
| `Option1.ChunkShape` | mipi-dbi.c:190-217 | A chunk that is no multiple of eight is the last one, and it is padded exactly when the whole length fits one chunk or leaves fewer than eight bytes |
| `Option1.TurnWire` | mipi-dbi.c:190-262 | Each turn of the chunk loop extends the wire image by the next whole blocks, and the last one completes it |
| `Option1.ReceiveBlocks` | mipi-dbi.c:217-253 | Any number of consecutive blocks decodes to the source words in order |
| `Option1.CommandWire` | mipi-dbi.c:158-170 | The nine bytes of a command are seven no-ops followed by the command word |
| `Option1.SendCommand` | mipi-dbi.c:158-175 | A command is one transfer of that block; it is missing only if the allocation or the message failed |
| `Option1.SendData` | mipi-dbi.c:178-267 | For every length: on success the transfers concatenate to the wire image of the data, on failure to a prefix of it; all but the last transfer have the full size, 9/8 of the source limit, and none is larger; it fails only if an allocation or a message fails; the loop terminates |
| `Option1.Spi1eTransfer` | mipi-dbi.c:133-268 | The whole function: refusals (`-EINVAL`) with nothing sent, wire image on success, prefix on failure, every transfer within the DMA limit and the size asked for, D/C pin untouched; an accepted call fails only if an allocation or a message fails |
| `Option1.RefusedExactly` | mipi-dbi.c:145-163 | What is refused: a limit or a given size below twelve bytes, and commands of more than one byte or of 16 bits |
| `Option1Decode.ReceiveData` | mipi-dbi.c:178-262 | What the receiver gets for every length: the carried words, and a partial frame of `8 - len % 8` bits exactly when the last block overran the source |
| `Option1Decode.ReceiveOverrun` | mipi-dbi.c:214-256 | A chunk of eight or more that is no multiple of eight runs past the source, but the cut transfer still holds all its data words, followed by a partial frame |
| `Option1Decode.RoundTrip` | mipi-dbi.c:178-262 | The wire image decodes to the data words followed by fewer than eight no-ops, with no partial frame, if and only if the length is covered |
| `Option1Decode.CoveredIs` | mipi-dbi.c:193-217 | Covered in plain terms: 8-bit data with `len % 8 == 0`, one chunk, or a last chunk below eight; 16-bit data in addition only with `len % 8` 0 or 2 |
| `Option1Decode.TwoPixels` | mipi-dbi.c:206-209 | Of two pixels sent on their own, the second never goes out |
| `Option1Decode.TwentyEightBytes` | mipi-dbi.c:217-256 | Twenty-eight bytes in chunks of sixteen leave the receiver four bits into a frame |
| `Option3.MaxTransferSize` | tinydrm-regmap.c:183-200 | The transfer size is a multiple of four, at least four, and, unless it is four, within the DMA limit and the limits that are given |
| `Option3.MaxTransferIsLargest` | tinydrm-regmap.c:183-200 | And no larger multiple of four is within all limits that are given |
| `Option3.BpwSingle` | tinydrm-regmap.c:213-230 | A word size mask made with `SPI_BPW_MASK(k)` supports k bits and 8 bits and no other size |
| `Option3.BpwUnion` | tinydrm-regmap.c:213-230 | Masks put together support what one of them supports; without a mask there are 8-bit words only |
| `Option3.ConfiguredMask` | utinydrm.c:417-417 | The configured controller supports 8 and 16 bits, so nothing is swapped for it |
| `Option3.SwabBytes` | include/linux/kernel.h:75-78 | `swab16` exchanges the two bytes of a u16 |
| `Option3.FillSwapBuf` | tinydrm-regmap.c:389-394 | The bounce buffer is filled with the swapped words of the chunk and never indexed past `chunk / 2` |
| `Option3.SwappedBytes` | tinydrm-regmap.c:389-397 | The bounce buffer in memory order is the source with the bytes of every u16 exchanged |
| `Option3.OnWireStep` | tinydrm-regmap.c:383-406 | A further chunk extends what is on the wire; chunk borders never split a 16-bit word |
| `Option3.SpiTransfer` | tinydrm-regmap.c:348-409 | Refusals send nothing; otherwise the transfers concatenate to the source, byte-swapped where needed, or to a prefix on failure; each carries the D/C level, all but the last have `max_chunk` bytes, and none is empty or larger; an accepted call fails only if a message fails |
| `Transport.DecodeWire1` | mipi-dbi.c:342-365 | One covered register write over Option 1 decodes to its command and parameter words, apart from no-ops, and ends on a frame boundary |
| `Transport.DecodeAll1` | mipi-dbi.c:342-365 | The same for any sequence of covered writes |
| `Transport.ParseAll` | mipi-dbi.c:342-365 | The words of a sequence of writes parse to the commands the writes mean |
| `Transport.Words3Meant` | tinydrm-regmap.c:369-397 | Over Option 3 a write is delivered as meant if and only if it is no pixel write, or the controller lacks 16-bit words, or exchanging the bytes would not change the pixels |
| `Transport.NativeWidthDiffers` | spi.c:70-77 | A concrete pixel on a controller with 16-bit words that arrives with its bytes the wrong way round, because `spi_sync` always asks for 8-bit words |
| `Transport.Chunk1Limit` | mipi-dbi.c:355-361 | The gather write takes at most 3640 bytes of the source a chunk, whatever the DMA limit, and that many for every limit from 4096 on |
| `Transport.TransportEquivalence` | mipi-dbi.c:342-423 | Any sequence of covered writes delivers the same words over both options apart from no-ops, and Option 1 ends on a frame boundary |
| `Transport.CommandsArrive` | mipi-dbi.c:342-423 | And both parse to exactly the commands and parameters written, with 16-bit values for register 0x2C |
| `Interface.PinWordsHigh` | mipi-dbi.c:415-420 | Everything sent with the D/C pin high is data |
| `Interface.OnWireParams` | mipi-dbi.c:415-420 | What the chunked transfer left on the wire is the start of the parameters, and all of them when it is complete |
| `Interface.Interface.Spi1GatherWrite` | mipi-dbi.c:342-365 | The Option 1 gather write sends exactly the wire image of the write, a prefix on failure, nothing when refused; with a usable DMA limit it fails only if an allocation or a message fails |
| `Interface.Interface.Spi3GatherWrite` | mipi-dbi.c:389-423 | The Option 3 gather write delivers command and parameters tagged by the pin, a prefix on failure; the bounce buffer is allocated on first use and large enough; it fails only if an allocation or a message fails |
| `Interface.Interface.GetTxBuf` | utinydrm.c:123-144 | The bounce buffer is fresh and holds the requested length, or there is none |
| `Regmap.SetFlagMask` | include/linux/regmap.h:254-267 | The mask is or-ed into the first bytes, byte by byte, and the rest of the buffer is unchanged; a zero mask changes nothing |
| `Regmap.FlagBytes` | include/linux/regmap.h:265-266 | The bytes or-ed in are those of the mask, the least significant first: put together they are the mask |
| `Regmap.Regmap.FormatReg` | include/linux/regmap.h:280-282 | The first byte of the work buffer is the shifted register number with the flag mask |
| `Regmap.RegByteBits` | include/linux/regmap.h:280-282 | Unshifted, that byte has a bit exactly if the low byte of the register or of the mask has it |
| `Regmap.Regmap.RawWrite` | include/linux/regmap.h:269-325 | Single-buffer path, gather path and linearised fallback leave the same on the link: the register byte and the caller's value bytes, as heard by the panel for every length of whole words and as wire image for covered lengths, a start of them on failure; on a link that is ready it fails only if an allocation or a message fails |
| `Regmap.Regmap.ReadyIs` | mipi-dbi.c:355-361 | A link is ready for Option 1 from a DMA limit of 12 bytes on, for Option 3 up to 153603 bytes, where the bounce buffer is large enough |
| `Wire.SameWire` | include/linux/regmap.h:289-319 | For covered lengths equal value bytes give equal Option 1 wire images, wherever they lie |
| `Wire.SameAccounted` | include/linux/regmap.h:289-319 | What a register write leaves on either link is decided by the register and the value bytes |
| `Wire.WireHeard` | mipi-dbi.c:342-365 | A complete write over Option 1, of any length, is heard as its command and the carried bytes, and leaves the receiver inside a frame exactly when its last block overran |
| `Wire.WireAccounted` | mipi-dbi.c:190-262 | Whatever start of a write was sent when it failed, a start of the write is heard, ending on a frame boundary |
| `Wire.ParseConcat` | mipi-dbi.c:342-365 | Words that begin with a command are understood independently of what came before |
| `Wire.HeardConcat` | mipi-dbi.c:342-365 | Transfers that end on a frame boundary do not disturb the next ones |
| `Wire.HeardReach` | mipi-dbi.c:342-423 | The panel makes of every register write the command as far as it was sent: all of it exactly on success, else some of its parameters or nothing |
| `Wire.ShortWrite` | mipi-dbi.c:197-213 | Writes of fewer than 16 parameters arrive whole and end on a frame boundary over either link |
| `Wire.SaidMore` | mipi-dbi.c:342-423 | What the panel makes of two stretches of traffic is what it makes of the first and then of the second |
| `Readback.RealignValue` | mipi-dbi.c:493-494 | One realigned byte is seven bits of a received byte followed by the top bit of the next |
| `Readback.RealignedSplit` | mipi-dbi.c:488-495 | For any length, the received bit string is one leading bit, the realigned data and seven trailing bits |
| `Readback.RealignedIsShift` | mipi-dbi.c:488-495 | The realigned value is the received big-endian value shifted right by seven, modulo the data's width |
| `Readback.Spi3Read` | mipi-dbi.c:431-499 | Which reads are refused with nothing changed, which are copied, which are realigned; the command goes out with the pin low |
| `Clips.ConsideredAre` | tinydrm-helpers.c:52-55 | The clips considered are all of them, or exactly the odd-indexed ones of copy-annotated pairs |
| `Clips.MergeClips` | tinydrm-helpers.c:30-67 | The loop computes the joined rectangle of the considered clips, or the whole framebuffer when there are none or the result is illegal |
| `Clips.BoxBounds` | tinydrm-helpers.c:52-59 | Every considered clip lies within the joined rectangle |
| `Clips.BoxIsLeast` | tinydrm-helpers.c:52-59 | And the joined rectangle lies within every rectangle that bounds them |
| `Clips.MergeCovers` | tinydrm-helpers.c:30-67 | Every framebuffer pixel of a considered clip is flushed |
| `Clips.MergeInBounds` | tinydrm-helpers.c:61-67 | The result is non-empty and inside the framebuffer |
| `Clips.MergeIsLeast` | tinydrm-helpers.c:52-67 | The result lies in every in-bounds rectangle that bounds the clips, unless all are empty |
| `Clips.FallbackOutside` | tinydrm-helpers.c:61-67 | One clip reaching outside makes the flush cover everything |
| `Clips.NoFallback` | tinydrm-helpers.c:61-67 | In-bounds clips that are not all empty never do |
| `Clips.FallbackExactly` | tinydrm-helpers.c:61-67 | The joined rectangle is flushed exactly if all clips lie inside and between them they span a column and a line; otherwise the whole framebuffer is |
| `Panel.FilledAt` | mipi-dbi.c:594-602 | What any position of frame memory holds after pixels, up to the rest of the address window, were written, by induction over the pixel stream |
| `Panel.FillWindow` | mipi-dbi.c:594-602 | Pixels, no more than the window takes, go to its positions in reading order; everything else is unchanged |
| `Panel.OnlyWindow` | mipi-dbi.c:594-602 | However many pixels are written, only positions of the window change |
| `Flush.WindowStart` | mipi-dbi.c:594-599 | The start address decodes to the clip's first column or line |
| `Flush.WindowEnd` | mipi-dbi.c:596-599 | The end address decodes to the last column or line if and only if the exclusive end is no multiple of 256; otherwise it is 256 too large |
| `Flush.WindowEndAt256` | mipi-dbi.c:596-599 | An exclusive end of 256 is sent as 511 |
| `Flush.MergedFits` | tinydrm-helpers.c:30-67 | Whatever clips are reported, the merged rectangle stays in the framebuffer, also for one too large for the 16-bit coordinates |
| `Flush.FlushWithinMap` | tinydrm-regmap.c:136-162 | For any rectangle that stays in the framebuffer no 32-bit product wraps and the bytes read lie inside the mapping |
| `Flush.SourceExact` | tinydrm-regmap.c:144-148 | The row offset by clip width reads the right pixels if and only if the clip starts at the left edge and is as wide as a line in memory, or is the first line alone |
| `Flush.SourceAtSecondPixel` | tinydrm-regmap.c:144-144 | In a framebuffer of 4x2 pixels, a clip from the second pixel of a line is read from the first |
| `Flush.XrgbToRgb565` | tinydrm-helpers.c:78-89 | Every pixel of the buffer is converted: its red, green and blue are the top 5, 6 and 5 bits of the third, second and first byte of the stored pixel |
| `Flush.ConvertedChannels` | tinydrm-helpers.c:78-89 | The same for one pixel, as every result about shown pixels uses it |
| `Flush.FlushRgb565` | tinydrm-regmap.c:132-166 | What is sent to the register: the pixels at the computed offset, converted if needed, and the two refusals |
| `Flush.PixelsArrive` | tinydrm-regmap.c:162-162 | The panel assembles the pixel values the driver sent |
| `Flush.FlushWindow` | mipi-dbi.c:594-602 | The three commands set the window they encode, right or too large, and fill it from the clip's first position |
| `Flush.PlacedAt` | mipi-dbi.c:594-602 | The pixels of a stream no longer than the clip end up at their places in it if the window has the clip's width or the clip is one line; too many lines do no harm |
| `Flush.LastPixelMissed` | mipi-dbi.c:594-602 | With a window too wide for a clip of several lines its last pixel is never written |
| `Flush.FlushMirrors` | mipi-dbi.c:583-602 | After a flush of an exact clip, cut short or not, the panel shows the framebuffer at the positions whose pixels arrived and is unchanged at every other |
| `EndToEnd.FlushArrives` | mipi-dbi.c:594-602 | The three register writes of a flush are decoded from the bits of either interface as the three commands |
| `EndToEnd.WireMirrors` | mipi-dbi.c:583-602 | The panel that decodes the bits of an exact flush shows the framebuffer inside the clip and is unchanged outside it; both interfaces leave it in the same state |
| `EndToEnd.ClipCovered` | mipi-dbi.c:193-217 | A clip of n pixels is carried exactly over Option 1 if and only if n is a multiple of four, or one more with the odd pixel in a chunk of its own |
| `Delivery.ArrivedPixels` | tinydrm-regmap.c:383-406 | What arrives of a pixel write over a link is a start of the pixels, each with its bytes exchanged on a controller with 16-bit words, and all of them exactly if the link carries the length |
| `Delivery.DeliveredMemory` | mipi-dbi.c:594-602 | Once both address commands got through, frame memory depends on the pixels that arrived and on nothing else |
| `Delivery.NoPixelNoChange` | mipi-dbi.c:594-610 | A flush of which less than a pixel arrives changes no frame memory, whatever the window |
| `Delivery.DeliveryMirrors` | mipi-dbi.c:583-610 | However far the pixel write of an exact flush came, the positions whose pixels arrived show the framebuffer as the link presents it, and the others are unchanged |
| `Delivery.WindowUnset` | mipi-dbi.c:594-599 | If an address command fails there is a panel on which the clip's first pixel is not written |
| `Delivery.FlushShowsIff` | mipi-dbi.c:583-610 | For every framebuffer, clip in it, link and outcome of the three writes: the flush shows the clip on every panel and for every memory if and only if both address commands and all pixel data get through, the clip is exact, and the link does not exchange bytes |
| `FbList.FbList.Create` | utinydrm.c:217-218 | A new framebuffer becomes the head of the list, the rest is unchanged |
| `FbList.FbList.Find` | utinydrm.c:326-332 | The lookup by id finds the first match or none |
| `FbList.FbList.FindMapping` | spi.c:90-93 | The lookup by address finds the first mapping that holds it or none |
| `FbList.FbList.Destroy` | utinydrm.c:243-272 | The exact effect on the heap list: the matching node and, unless it is the head, the node before it are unlinked; `-EINVAL` exactly when the id is absent |
| `FbList.DestroyExact` | utinydrm.c:248-257 | Destroy removes exactly the matching framebuffer if and only if it is at the head or absent |
| `FbList.DestroyLosesPredecessor` | utinydrm.c:250-254 | A match further down also loses the framebuffer before it |
| `FbList.DestroySecond` | utinydrm.c:250-254 | Destroying the second of two framebuffers leaves none |
| `Pipeline.InvariantStep` | utinydrm.c:366-397 | Every event keeps: enabled only while prepared, backlight exactly while enabled, never enabled before a whole flush, regulator count one for a prepared panel plus one for every failed soft reset |
| `Pipeline.InvariantRun` | utinydrm.c:366-397 | Hence it holds after every run of events |
| `Pipeline.LightNeedsFlush` | mipi-dbi.c:611-621 | The backlight is switched on by a successful whole-framebuffer flush and by nothing else |
| `Pipeline.SupplyBalanced` | mi0283qt.c:88-110 | The regulator is held exactly while prepared if and only if no soft reset has failed in the run |
| `Pipeline.FailedReset` | mi0283qt.c:91-110 | After one failed soft reset the supply is on and the panel not prepared |
| `Pipeline.EnablePrepares` | mi0283qt.c:74-181 | Enabling prepares exactly if the panel was prepared, or the supply came up and the display was on or the soft reset succeeded; the supply count rises by one exactly if there is a regulator, the panel was not prepared and the supply came up |
| `Pipeline.DisabledRun` | mipi-dbi.c:666-706 | After every run that ends with disabling: light off, not enabled; with a backlight or a regulator not prepared, with neither as before; the supply count is the number of failed soft resets, and has dropped by one exactly if the panel was prepared |
| `Pipeline.PowerCycle` | mi0283qt.c:88-110 | With a backlight or a regulator, disabling undoes enabling exactly if the soft reset did not fail or there is no regulator |
| `Pipeline.DirtyEnables` | mipi-dbi.c:604-621 | A dirty event enables the pipeline exactly if its pixels go through, lights the backlight only then, makes the listed framebuffer that of the plane, and leaves list, supply and preparation alone |
| `Pipeline.BlankWindow` | mipi-dbi.c:635-653 | Blanking says what a flush of the empty clip says, because it reads display sizes that are never set |
| `Pipeline.BlankedIfNothingElse` | mipi-dbi.c:676-681 | An enabled pipeline is blanked on disabling exactly if neither the light nor the supply changes |
| `Power.DisplayIsOnExactly` | mipi-dbi.c:799-815 | The check for a display that is on succeeds exactly for a panel that is on, awake, in normal mode, not partial and not idle, whatever the reserved bits |
| `Power.InitLights` | mi0283qt.c:105-172 | From any state, the soft reset and the initialisation leave the panel on and awake, with 16 bits a pixel and the orientation of the rotation |
| `Power.SleepDarkens` | mipi-dbi.c:695-696 | The sleep commands turn it off, change nothing else, and the next check finds it off |
| `Power.DisabledPanel` | mipi-dbi.c:674-704 | Disabling puts a prepared panel with a backlight to sleep and leaves every other panel as it was |
| `Power.PreparedIsLit` | mi0283qt.c:74-181 | After every run in which the writes arrive and the power mode is read as it is: a panel the driver holds for prepared is on and awake, and, if it cannot be read, has the driver's pixel format and orientation |
| `Power.LostDisplayOn` | mi0283qt.c:114-175 | The results of the initialisation are ignored: with the last command lost the panel is prepared and dark |
| `Power.QuarterTurn` | mi0283qt.c:133-148 | Each further rotation by 90 degrees turns the picture counter clockwise by a quarter, as `mipi_dbi_init` documents it |
| `Pipeline.HandlersKeep` | mi0283qt.c:105-173 | Nothing that enabling or disabling says, however much of it gets through, reaches the frame memory |
| `Device.Device.WriteBuf` | mipi-dbi.c:87-103 | One command through the register map: what the panel makes of it, success exactly if all of it was sent, and on a ready link no miss without a failure |
| `Device.Device.WriteAll` | mi0283qt.c:114-172 | A series of commands, results ignored, each heard as far as it got; on a ready link no more of them are missed than there were failures |
| `Device.Device.ReadPowerMode` | mipi-dbi.c:799-815 | The power mode is read only from a readable panel; the command is heard; it is missed only if a message failed |
| `Device.Device.Initialise` | mi0283qt.c:105-172 | Soft reset, and the whole initialisation sequence exactly if it succeeded |
| `Device.Device.Enable` | mi0283qt.c:74-181 | The enable handler changes the objects as the state machine says and says the power mode read, the soft reset and the initialisation, with no more misses than failures |
| `Device.Device.Darken` | mipi-dbi.c:635-681 | Light off, or blanking where there is neither light nor regulator |
| `Device.Device.Disable` | mipi-dbi.c:666-706 | The disable handler changes the objects as the state machine says (`Pipeline.DisabledRun`) and says the blanking or the display-off and sleep commands, with no more misses than failures |
| `Device.Device.PipeEnable` | utinydrm.c:146-155 | The enable event refines the step of the state machine |
| `Device.Device.PipeDisable` | utinydrm.c:157-166 | So does the disable event |
| `Device.Device.CheckDirty` | tinydrm-core.c:145-160 | Until enabled the clips are dropped; until prepared nothing is flushed |
| `Device.Device.FlushDirty` | mipi-dbi.c:568-627 | The dirty handler says the commands for the merged rectangle, as far as the three writes got, and enables the pipeline exactly if the pixel write succeeded |
| `Device.Device.SendPixels` | tinydrm-regmap.c:132-166 | The pixel write through the register map: what arrives of it, from nothing over a start of the pixels to all of them, and whether the receiver is left inside a frame |
| `Device.Device.SendFlush` | mipi-dbi.c:594-610 | The three writes through the register map are heard as the commands of the flush, each as far as it got; only the result of the pixel write counts; on a ready link no more of the three are missed than there were failures |
| `Device.Device.Dirty` | utinydrm.c:316-364 | The dirty event on the listed framebuffer: new state, commands heard, always zero |
| `Device.Device.Handle` | utinydrm.c:366-397 | The dispatcher refines the state machine's step for every event and says what the handlers say |
| `Device.CalmEnable` | mi0283qt.c:74-181 | Where nothing fails, enabling says all its commands, reads the power mode of a readable panel, and its reset succeeds |
| `Device.CalmDisable` | mipi-dbi.c:666-706 | Where nothing fails, disabling says all its commands |
| `Device.CalmDirty` | mipi-dbi.c:568-627 | Where nothing fails, a dirty event on a known format sets the window and sends all its pixels |
| `Device.WorldHears` | utinydrm.c:366-397 | The panel that hears what the handlers say is the panel of the whole-run model's step for that event, frame boundary included |
| `Mirror.FlushRefreshes` | mipi-dbi.c:583-610 | An exact flush makes the positions whose pixels arrived agree with the framebuffer and keeps what agreed |
| `Mirror.FlushSpoils` | mipi-dbi.c:583-610 | For every other framebuffer at most those positions stop agreeing |
| `Mirror.FlushKeeps` | mipi-dbi.c:583-610 | The bookkeeping of possibly differing positions is right for every listed framebuffer after complete flushes, flushes cut short after any number of bytes, and flushes that went astray |
| `Mirror.MirrorStep` | utinydrm.c:366-397 | Every drawing and every event keeps: the panel shows each listed framebuffer outside its possibly differing positions |
| `Mirror.MirrorRun` | utinydrm.c:366-397 | Hence it holds in every reachable state, over any link |
| `Mirror.DirtyShows` | mipi-dbi.c:583-602 | After a dirty event that is heard in frame, transferred over a link that carries it, and exact, everything its clips cover is shown |
| `Mirror.RefreshesAll` | mipi-dbi.c:583-602 | Such an event refreshes its whole rectangle |
| `Mirror.FirstFlushShows` | tinydrm-core.c:150-157 | The first such event after enabling makes the panel show the whole framebuffer |
| `Mirror.FrameShows` | utinydrm.c:316-364 | If the panel shows the framebuffer, it still does after drawing whose changes are reported and refreshed |
| `Mirror.FramesShow` | utinydrm.c:316-364 | And so after any number of such frames |
| `Mirror.LightOverNothing` | mipi-dbi.c:594-621 | A run after which the pipeline is enabled and the backlight on, although the first pixel was never written because the column command failed |
| `ListHead.AddBetween` | include/linux/list.h:69-77 | The ring with the new entry inserted after the given one |
| `ListHead.ListAdd` | include/linux/list.h:92-95 | Insertion right behind the head |
| `ListHead.ListAddTail` | include/linux/list.h:106-109 | Append |
| `ListHead.DelEntry` | include/linux/list.h:118-134 | The ring without the entry |
| `ListHead.ListDel` | include/linux/list.h:136-141 | The ring without the entry, whose links are poisoned |
| `ListHead.ListMoveTail` | include/linux/list.h:196-201 | Moving an entry of a list to its own tail |
| `ListHead.ListMoveTailTo` | include/linux/list.h:196-201 | Moving an entry to the tail of another list: both rings |
| `ListHead.ListEmpty` | include/linux/list.h:218-221 | Empty exactly for a ring of the head alone |
| `ListHead.ListIsSingular` | include/linux/list.h:260-263 | Singular exactly for a ring of two |
| `ListHead.ListIsLast` | include/linux/list.h:208-212 | Last exactly for the entry before the head |
| `ListHead.ListRotateLeft` | include/linux/list.h:246-254 | The first entry becomes the last |
| `ListHead.CutAt` | include/linux/list.h:265-275 | The prefix up to the entry and the rest become two rings |
| `ListHead.ListCutPosition` | include/linux/list.h:291-303 | The three exits and the cut, for an entry of the list, the head itself and a foreign entry of a short list |
| `ListHead.SpliceBetween` | include/linux/list.h:305-317 | The entries of one ring in order between two neighbours of another |
| `ListHead.ListSplice` | include/linux/list.h:324-329 | Splice behind the head |
| `ListHead.ListSpliceTail` | include/linux/list.h:336-341 | Concatenation |
| `ListHead.CutAndSplice` | include/linux/list.h:291-329 | Cutting at any entry and splicing the part back at the head restores the original ring and order |
| `ListHead.RingIsUnique` | include/linux/list.h:56-77 | The links determine the sequence: two rings with the same head are the same |
| `ListHead.RingPrefix` | include/linux/list.h:56-77 | Walking `next` from the head visits the entries in order |
| `ListHead.MessageInitWithTransfers` | include/linux/spi/spi.h:233-242 | The message's ring holds the transfers in array order |
| `HexDump.HexDumpToBuffer` | tinydrm-regmap.c:20-119 | For every buffer size and group size, with and without characters: the buffer gets the longest prefix of the complete line that fits, a terminator, and nothing beyond it changes; the result is the complete line's length; the exceptions for empty input |
| `HexDump.DumpGroups` | tinydrm-regmap.c:49-81 | The group loops print the groups in order, or stop with the longest prefix that fits |
| `HexDump.DumpBytes` | tinydrm-regmap.c:82-97 | The byte loop does the same, with the trailing space taken back |
| `HexDump.DumpAscii` | tinydrm-regmap.c:101-111 | The characters from their column on |
| `HexDump.Snprintf` | tinydrm-regmap.c:53-56 | `snprintf` with a positive size: what is stored and what is returned |
| `HexDump.RenderingLength` | tinydrm-regmap.c:117-118 | The closed form returned by the overflow exits is the length of the complete line |
| `HexDump.LeInverse` | include/linux/kernel.h:92-113 | The bytes of a little-endian value are the bytes it was read from |
| `HexDump.HexInverse` | tinydrm-regmap.c:53-56 | The printed digits of a value read back as the value |
| `HexDump.GroupsInverse` | tinydrm-regmap.c:49-97 | Reading the printed groups back gives the bytes, for every number of groups |
| `HexDump.PrefixRoundTrip` | tinydrm-regmap.c:49-97 | Whatever part of the line fits the buffer, its complete groups read back as the first bytes of the memory |
| `HexDump.DumpRoundTrip` | tinydrm-regmap.c:49-97 | The untruncated line reads back, group by group, as the first bytes of the memory: the 16 or 32 of the row size, or all there are |
| `HexDump.CharactersAt` | tinydrm-regmap.c:40-111 | The characters start at a column that depends on the sizes only, and show every byte of the line, a full stop where it is not printable |
| `HexDump.GroupSizeIs` | tinydrm-regmap.c:35-38 | The group sizes kept are the powers of two up to 8 that divide the length |
| `Spidev.TilesPartition` | spi.c:51-61 | A length cut into chunks covers every position exactly once and nothing else |
| `Spidev.TilesInOrder` | spi.c:51-61 | The chunks follow each other in order, are at most the maximum, and only the last may be smaller |
| `Spidev.FiveRequests` | spi.c:45-61 | A frame of 320 by 240 pixels goes through `buf_fd` in five requests |
| `Spidev.BufFdReadOnce` | spi.c:51-61 | A transfer through `buf_fd` reads its first bytes, each of them once, and no other |
| `Spidev.AskedWhereItLies` | spi.c:90-121 | A request asks for the address of the transfer: in a framebuffer exactly if one maps it, else in the bounce buffer exactly if that does, else by itself; the 32-bit offset is right up to 4 GB |
| `Spidev.SpiDevice.BufTransfer` | spi.c:35-65 | The requests are the chunks in order, a prefix of them on failure; the 32-bit offset does not wrap; it fails only if a request fails |
| `Spidev.SpiDevice.SpiSync` | spi.c:67-141 | Which memory a transfer is read from, by the address lookup and the three modes, and that of a second transfer only the length is passed on; it fails only if a request fails |
| `Spidev.SpiDevice.BufferedExactly` | spi.c:90-99 | `buf_fd` is used exactly if there is one and the address lies in a framebuffer |
| `Spidev.ChunksFound` | spi.c:90-105 | With disjoint mappings every chunk of a transfer inside a mapping is found in that framebuffer at its own offset |
| `Spidev.FlushChunksFound` | tinydrm-regmap.c:136-162 | For a flush sent in place, the chunks are found in the flushed framebuffer, at offsets that tile the flushed range |
| `Spidev.SpiDevice.TransferChunk` | tinydrm-regmap.c:383-406 | One turn of the chunk loop by addresses |
| `Spidev.SpiDevice.TransferDirect` | tinydrm-regmap.c:383-409 | The whole loop by addresses: the requests tile the range in that framebuffer, in order; it fails only if a request fails |
| `Spidev.SpiDevice.TransferWithHeader` | tinydrm-regmap.c:378-406 | With a header in front of every chunk, the header is sent and then as many clocks as the chunk has bytes; the data itself is never asked for |
| `Spidev.HeaderClocks` | tinydrm-regmap.c:378-406 | In all there are then as many clocks as the data has bytes |
| `Kernel.Fls` | include/linux/kernel.h:145-171 | For non-zero x, `2^(fls(x)-1) <= x < 2^fls(x)`; zero for zero |
| `Kernel.PowersOf2` | include/linux/kernel.h:135-138 | `is_power_of_2` holds exactly for the powers of two |
| `Kernel.AlignedDivides` | include/linux/kernel.h:143-143 | For every x and every power of two a, the alignment test is divisibility |
| `Kernel.LongPower` | include/linux/kernel.h:135-138 | Seen as unsigned long, no negative int is a power of two |
| `Kernel.InitStride` | include/linux/regmap.h:498-505 | For every configured int: the stride order is non-negative exactly for powers of two, then the stride is two to that order and alignment by it is divisibility by that power |

## Left out

- The native 9-bit branch (mipi-dbi.c:285-340): its 16-bit loop bound and its transfer length are
  in different units, so what it sends is not settled.
- Interface.Interface.Spi1GatherWrite: states the emulated Option 1 only, and therefore requires a
  controller without 9-bit words, because of the branch above.
- Option3.SpiTransfer: has no header transfer, because every caller passes none; what a call with
  one would send is stated by `Spidev.SpiDevice.TransferWithHeader`.
- Interface.Interface.Spi3GatherWrite: promises nothing about the parameters of a pixel write of odd length, because
  the last byte then comes from whatever the bounce buffer held.
- Readback.Spi3Read: promises nothing about the value after a failed transfer, because the code
  then copies an uninitialised buffer; the slower clock of reads is not modelled.
- Spidev.SpiDevice.BufTransfer: models which requests are made in the `buf_fd` mode, not what the
  kernel has packed into that buffer.
- Spidev.SpiDevice.SpiSync: `tx_buf` is either absent or a valid mapping, not an error pointer.
- Spidev.SpiDevice.TransferDirect: models the loop by the addresses it passes on; the bytes are
  the subject of `Option3.SpiTransfer`.
- Device.Device.Enable: leaves out the delays, the reset line and the scheduled repaint; after a
  reset, or a power cycle, the panel's memory and window are arbitrary.
- Power.PreparedIsLit: is about runs in which the writes of the handlers arrive, because the code
  ignores their results (`Power.LostDisplayOn`); when they do is said by `Device.CalmEnable` and
  `Device.CalmDisable`.
- Delivery.FlushShowsIff: is stated for framebuffers whose lines fit their pitch and whose size
  fits 32 bits, and rectangles inside them, which is what merging produces (`Clips.MergeInBounds`).
- Device.Device.Dirty: leaves out the memory mapping itself; a framebuffer is where its mapping was
  created.
- Regmap.Regmap.RawWrite: leaves out the argument checks of `regmap_raw_write`, which never refuse
  for 8-bit values; over Option 1 it speaks of the emulated encoder, as `Spi1GatherWrite` does.
- HexDump.HexDumpToBuffer: writes the three loops for groups of 8, 4 and 2 as one, since they
  differ in the width only; a negative group size counts as one.
- `list_replace`, `list_move`, the `_init` variants and the iteration macros of include/linux/list.h: they would
  only repeat the members that are here.
- Opening, mapping and polling devices, sysfs, GPIO and regulator access: their results are
  arbitrary.
- Locks and deferred work, which are stubs in this repository: events are handled one after
  another.
- Debug output, probing and display modes: no property of interest.
- Big-endian machines.
