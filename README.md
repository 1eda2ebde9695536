# CHIP-8 interpreter core

A model of the `chip8` interpreter object in `chip8.cpp`. The object holds:

- 4 KiB of memory;
- sixteen 8-bit registers V0..VF;
- the 16-bit index register I and program counter;
- a sixteen-entry call stack with its stack pointer;
- the delay and sound timers;
- sixteen key flags;
- a 64x32 framebuffer of 32-bit pixels.

The model covers the three operations on that object:

- the constructor, which copies the hexadecimal glyph table to 0x50 and starts pc at 0x200;
- the program loader, which copies an image byte for byte to 0x200;
- `Cycle`, which fetches the big-endian word at pc, dispatches on it, executes the operation and counts both timers down. An Fx0A that finds no key pressed returns before pc moves and before the timers tick.

The project has two layers:

- **Pure semantics.** The modules `Bits`, `MachineState`, `Decoder`, `Sprite` and `Semantics` describe a whole machine state as a `State` value and one cycle as the function `Semantics.Cycle`. `Properties` proves what the operations promise about those functions.
- **Imperative object.** The class `Chip8.Chip8` keeps the object's arrays and fields. Its constructor, `LoadROM` and `Cycle` update them in place, loop by loop as the C++ does. Each is proved to produce exactly the state the pure functions give (`Abs() == Semantics.Cycle(old(Abs()), rnd)`).

How the C++ is rendered:

- **Integer widths.** `uint8_t`, `uint16_t` and `uint32_t` become the bounded integer types `Byte`, `Word` and `Pixel`. C's narrowing on assignment is written out as `ToByte` and `ToWord`. For example, `pc += 2` is `ToWord(pc + 2)` and `registers[Vx] <<= 1` is `ToByte(2 * Vx)`.
- **Bitwise operators.** `&`, `|` and `^` on bytes are the bit-by-bit function `Bits.Bitwise`.
- **Undefined behaviour.** The C++ checks no bounds, so behaviour is undefined whenever an operation indexes past an array. The model turns each such case into a precondition, collected in `Semantics.Defined` and `Semantics.Runnable`:
  - pc + 1 < 4096 for the fetch;
  - sp > 0 for 00EE and sp < 16 for 2nnn;
  - Vx < 16 for Ex9E and ExA1 (the key index);
  - I + n <= 4096 for Dxyn with n > 0 (Dxy0 reads no memory, so any I will do);
  - I + 2 < 4096 for Fx33;
  - I + x < 4096 for Fx55 and Fx65;
  - an image of at most 3584 bytes for the loader.
- **Order of the VF writes.** The model follows the code: 8xy4 computes the sum before writing VF, while 8xy5, 8xy6, 8xy7 and 8xyE write VF first and then compute Vx from the registers as they now are. The order matters only when x or y is F. Lemmas in `Properties` state what the code does in each of those cases:
  - `FlagTargetKeepsResult`, `SubFlagTarget`, `ShrFlagTarget`, `SubnFlagTarget` and `ShlFlagTarget` cover x = F (8Fy4, 8Fy5, 8Fy6, 8Fy7, 8FyE).
  - `SubReadsNewFlag` and `SubnReadsNewFlag` cover 8xF5 and 8xF7.
  - The lemmas for 8xF4, 8xF6 and 8xFE are the general ones, which need only x ≠ F.
- **Unknown words.** A word that no case of the nested switches selects decodes to `Nop`, which only advances pc:
  - 0nnn other than 00E0 and 00EE;
  - 8xyN with N from 8 to D or F;
  - ExKK other than Ex9E and ExA1;
  - an unlisted Fxkk.

  The outer switch's `default:` can never run, because all sixteen top nibbles have a case. 5xy? and 9xy? ignore their low nibble, and 00E0 and 00EE their x nibble, as the code does.

## Model

| member | source | states |
|---|---|---|
| Bits.Bitwise | chip8.cpp:123-125 | the result of `a & b`, `a \| b`, `a ^ b` on n bits is below 2^n |
| Bits.BitwiseBit | chip8.cpp:123-125 | bit i of `a g b` is the gate applied to bit i of a and of b |
| Bits.BitwiseHigh | chip8.cpp:168 | no bit at or above n is set in an n-bit result |
| Bits.SameBitsEqual | chip8.cpp:123-125 | two n-bit numbers with the same bits are equal |
| Bits.PowerBits | chip8.cpp:183 | 2^k has bit k and only bit k |
| Bits.AndPower | chip8.cpp:183 | `b & (1 << k)` is non-zero exactly when bit k of b is set |
| Bits.AndPowerValue | chip8.cpp:183 | `a & 2^k` equals 2^k when bit k of a is set and 0 otherwise |
| Bits.TopBit | chip8.cpp:144 | bit n of a number below 2^(n+1) is set exactly when the number is at least 2^n |
| Bits.LowMask | chip8.cpp:136 | `v & 0x1` is v mod 2, the bit a right shift drops |
| Bits.HighMask | chip8.cpp:144 | `(v & 0x80) >> 7` is v / 0x80, the bit a left shift drops |
| Bits.ShiftRight | chip8.cpp:144 | `v >> k` is at most v; its value, v / 2^k, is the contract of `Bits.ShiftRightDivides` |
| Bits.ShiftRightDivides | chip8.cpp:144 | `v >> k` is v divided by 2^k |
| Bits.ToByte | chip8.cpp:114 | the conversion to uint8_t agrees with its argument modulo 256 and keeps any value that fits |
| Bits.ToWord | chip8.cpp:110 | the conversion to uint16_t agrees with its argument modulo 2^16 and keeps any value that fits |
| Bits.ByteOp | chip8.cpp:123-125 | each of the 8 bits of `a & b`, `a \| b`, `a ^ b` is the gate applied to that bit of a and of b |
| MachineState.Overwrite | chip8.cpp:47-49 | copying data over a sequence from position `at` changes exactly positions at..at+\|data\|-1, to the data |
| MachineState.Initial | chip8.cpp:12-37 | after construction the glyph table is at 0x50, all other memory, registers, stack entries and pixels are zero, no key is pressed, pc is 0x200, and sp, I, both timers and the opcode are 0 |
| MachineState.LoadImage | chip8.cpp:47-49 | loading puts the image byte for byte at 0x200, leaves every other cell and field alone; the largest image is 3584 bytes |
| Decoder.Fields | chip8.cpp:59-61 | the four nibble fields of the word built from nibbles t, x, y, n are t, x, y, n |
| Decoder.DecodeWord4 | chip8.cpp:59-253 | decoding a word is the switch on its four nibbles |
| Decoder.AluLayouts | chip8.cpp:121-147 | the canonical word of each 8xyN operation decodes to it |
| Decoder.MiscLayouts | chip8.cpp:219-246 | the canonical word of each Fxkk operation decodes to it |
| Decoder.DecodeLayout | chip8.cpp:59-253 | the canonical nibbles of every operation select it in the switches |
| Decoder.DecodeEncode | chip8.cpp:59-253 | decoding the canonical word of any operation gives back that operation |
| Decoder.EncodeDecode | chip8.cpp:59-253 | re-encoding the operation a word selects gives the word back, less the nibble it ignores (x of 00E0/00EE, the low nibble of 5xy?/9xy?) |
| Decoder.SelectedLayout | chip8.cpp:59-253 | the operation the switch on nibbles t, x, y, n selects has exactly those nibbles as its layout, apart from the ignored ones |
| Decoder.DecodeSystem | chip8.cpp:61-74 | 0nnn selects 00E0, 00EE or nothing, by the low byte |
| Decoder.DecodeArithmetic | chip8.cpp:121-147 | 8xyN selects the ALU operation whose code is N, with the same x and y, or nothing |
| Decoder.DecodeKeySkip | chip8.cpp:198-214 | ExKK selects Ex9E or ExA1 by the low byte, with the same x, or nothing |
| Decoder.DecodeMisc | chip8.cpp:219-246 | Fxkk selects the operation whose code is kk, with the same x, or nothing |
| Semantics.Fetch | chip8.cpp:56 | the fetched word has the byte at pc as its high half and the byte at pc+1 as its low half |
| Semantics.Defined | chip8.cpp:59-253 | only 00EE, 2nnn, Ex9E, ExA1, Dxyn, Fx33, Fx55 and Fx65 can index past an array |
| Semantics.SpriteAt | chip8.cpp:180-181 | the sprite is memory[I + row] for row < n, and empty when n is 0 |
| Semantics.Advance | chip8.cpp:110 | `pc += 2` moves pc by 2 modulo 2^16 and changes nothing else |
| Semantics.SkipIf | chip8.cpp:88-91 | pc moves by 4 when the condition holds and by 2 otherwise, modulo 2^16, nothing else changes |
| Semantics.Digits | chip8.cpp:236-238 | the three digits are at most 2, 9 and 9 and spell the byte in decimal |
| Semantics.Tick | chip8.cpp:255-259 | each timer drops by one unless it is zero, and nothing else changes |
| Semantics.HighestKey | chip8.cpp:222-228 | the scan of keys 0..15 ends with the highest pressed key, or finds none when no key is pressed |
| Semantics.Arithmetic | chip8.cpp:118-149 | an 8xyN operation writes only Vx and VF |
| Semantics.Draw | chip8.cpp:172-195 | Dxyn changes only VF and the framebuffer |
| Semantics.ExecuteMisc | chip8.cpp:217-248 | an Fxkk operation changes only memory, the registers, I, pc and the timers; never the stack, keys or screen |
| Semantics.ExecuteFlow | chip8.cpp:60-85 | 00E0, 00EE, 1nnn, 2nnn, Bnnn and unknown words change only the screen, the stack, sp and pc |
| Semantics.ExecuteSkip | chip8.cpp:87-106 | the skips change only pc |
| Semantics.ExecuteLoad | chip8.cpp:108-170 | the register and I loads change only the registers and I, and move pc by 2 |
| Semantics.Execute | chip8.cpp:59-253 | every defined operation keeps a well-formed state and never writes the keys or `opcode` |
| Semantics.Cycle | chip8.cpp:54-260 | a cycle keeps a well-formed state, stores the fetched word in `opcode` and never writes the keys |
| Sprite.Toggle | chip8.cpp:189 | complementing a pixel changes it, turning off into on and on into off |
| Sprite.SpriteBit | chip8.cpp:183 | column col of a sprite row is set exactly when bit 7-col of its byte is (most significant bit leftmost) |
| Sprite.Blit | chip8.cpp:180-192 | after a draw every pixel either keeps its value or is toggled |
| Sprite.ScreenIndex | chip8.cpp:184-186 | the pixel a sprite cell lands on, with both coordinates wrapped, is inside the framebuffer |
| Sprite.PartialBlit | chip8.cpp:180-192 | partway through a draw, exactly the pixels under the set cells already visited are toggled |
| Sprite.ScreenIndexInverse | chip8.cpp:184-186 | the row and column recovered from a cell's pixel are that cell's |
| Sprite.ScreenIndexOfPixel | chip8.cpp:184-186 | every pixel is the landing place of the cell recovered from it |
| Sprite.BlitAt | chip8.cpp:183-190 | drawing toggles the pixel under each set sprite cell |
| Sprite.BlitElsewhere | chip8.cpp:180-192 | drawing leaves every pixel under no set sprite cell alone |
| Sprite.CollisionIff | chip8.cpp:179-188 | VF is set exactly when some set cell lands on a pixel that was on |
| Sprite.BlitTwice | chip8.cpp:189 | drawing the same sprite twice at the same place restores the framebuffer |
| Sprite.BlitKeepsBinary | chip8.cpp:189 | a framebuffer of off/on pixels stays off/on |
| Sprite.BlitStep | chip8.cpp:182-190 | one more cell: its pixel is toggled if the cell is set, and a collision is added if that pixel was on |
| Sprite.NextRow | chip8.cpp:180-182 | finishing column 8 of a row is starting column 0 of the next |
| Properties.AddCarries | chip8.cpp:126-130 | 8xy4: VF:Vx is the 9-bit sum, other registers unchanged |
| Properties.SubBorrows | chip8.cpp:131-134 | 8xy5: Vx + Vy = old Vx mod 256, VF = 1 iff Vx > Vy |
| Properties.SubnBorrows | chip8.cpp:139-142 | 8xy7: Vx + old Vx = Vy mod 256, VF = 1 iff Vy > Vx |
| Properties.ShrShiftsOut | chip8.cpp:135-138 | 8xy6: 2·Vx + VF = old Vx |
| Properties.ShlShiftsOut | chip8.cpp:143-146 | 8xyE: 256·VF + Vx = 2·old Vx |
| Properties.BitwiseOps | chip8.cpp:123-125 | 8xy1/2/3: each bit of Vx is the gate of the operand bits, VF untouched |
| Properties.CopyCopies | chip8.cpp:122 | 8xy0: Vx takes Vy's value and every other register, VF included, keeps its own |
| Properties.SubReadsNewFlag | chip8.cpp:132-133 | 8xF5 subtracts the flag just written from Vx, and VF keeps that flag |
| Properties.SubnReadsNewFlag | chip8.cpp:140-141 | 8xF7 subtracts Vx from the flag just written, and VF keeps that flag |
| Properties.SubFlagTarget | chip8.cpp:132-133 | 8Fy5 leaves the new flag minus Vy in VF (0 for 8FF5); no other register changes |
| Properties.SubnFlagTarget | chip8.cpp:140-141 | 8Fy7 leaves Vy minus the new flag in VF (0 for 8FF7); no other register changes |
| Properties.ShrFlagTarget | chip8.cpp:136-137 | 8Fy6 leaves 0 in VF; no other register changes |
| Properties.ShlFlagTarget | chip8.cpp:144-145 | 8FyE leaves twice the old top bit of VF in VF; no other register changes |
| Properties.FlagTargetKeepsResult | chip8.cpp:127-129 | 8Fy4 leaves the low byte of the sum in VF; no other register changes |
| Properties.NopIffUnassigned | chip8.cpp:59-253 | a word decodes to no operation exactly when no case of the switches selects it |
| Properties.NopIffUnselected | chip8.cpp:59-253 | in terms of the four nibbles: the switches select no case exactly for the 0nnn, 8xyN, ExKK and Fxkk words they do not list |
| Properties.UnassignedOnlyAdvances | chip8.cpp:71-73 | an unselected word only advances pc by 2 |
| Properties.StepsToNext | chip8.cpp:59-253 | every operation other than a jump, call, return or skip (and a waiting Fx0A) moves pc by 2 |
| Properties.SkipsOnlyMovePc | chip8.cpp:87-106 | a skip changes only pc, by 4 or by 2 |
| Properties.ByteSkips | chip8.cpp:87-99 | 3xkk adds 4 to pc iff Vx == kk, 4xkk iff Vx != kk, else 2; nothing else changes |
| Properties.RegistersEqualSkips | chip8.cpp:101-106 | 5xy? adds 4 to pc iff Vx == Vy, else 2; nothing else changes |
| Properties.RegistersDifferSkips | chip8.cpp:151-156 | 9xy? adds 4 to pc iff Vx != Vy, else 2; nothing else changes |
| Properties.KeySkips | chip8.cpp:199-210 | Ex9E adds 4 to pc iff key Vx is pressed, ExA1 iff it is not, else 2; nothing else changes |
| Properties.JumpsLand | chip8.cpp:77-85 | 1nnn and Bnnn set pc to nnn (plus V0) and change nothing else; 2nnn pushes pc |
| Properties.Returns | chip8.cpp:66-70 | 00EE decrements sp and resumes at the popped address plus 2; nothing else changes |
| Properties.CallThenReturn | chip8.cpp:66-85 | 2nnn then 00EE resumes after the call with sp restored |
| Properties.ClearBlanks | chip8.cpp:62-65 | 00E0 turns every pixel off and changes only the screen and pc |
| Properties.DrawTogglesCells | chip8.cpp:180-192 | Dxyn toggles a pixel iff a set sprite cell lands on it; every pixel either keeps its value or is toggled |
| Properties.DrawFlagsCollision | chip8.cpp:179-188 | after Dxyn VF is 1 iff some set cell landed on an on pixel, else 0; V0..VE and everything but the screen and pc are unchanged |
| Properties.DrawKeepsBinary | chip8.cpp:189 | off/on pixels stay off/on under Dxyn |
| Properties.DrawTwiceRestores | chip8.cpp:172-195 | Dxyn twice restores the screen when x, y are not F |
| Properties.SecondDrawCollides | chip8.cpp:179-188 | the second of two equal draws sets VF iff the first turned some pixel on |
| Properties.BcdSpellsValue | chip8.cpp:235-239 | Fx33 writes three decimal digits that spell Vx at I..I+2; nothing else changes but pc |
| Properties.StoreWritesRegisters | chip8.cpp:240-242 | Fx55 writes V0..Vx to I..I+x and only there |
| Properties.LoadReadsRegisters | chip8.cpp:243-245 | Fx65 reads V0..Vx from I..I+x, higher registers unchanged |
| Properties.StoreThenLoad | chip8.cpp:240-245 | Fx55 then Fx65 gives back the stored registers |
| Properties.RandomMasked | chip8.cpp:167-170 | Cxkk: bit i of Vx is set iff it is set in both the random byte and kk; nothing else changes but Vx and pc |
| Properties.GlyphAddress | chip8.cpp:234 | Fx29 sets I to 0x50 + 5·Vx for every byte Vx, and nothing else changes but pc; for a digit Vx < 16, with the glyph table in place, the five bytes at I are that digit's glyph |
| Properties.DelayRead | chip8.cpp:220 | Fx07 copies the delay timer to Vx, nothing else changes but pc |
| Properties.TimersSet | chip8.cpp:231-232 | Fx15 / Fx18 copy Vx to a timer, nothing else changes but pc |
| Properties.IndexAdds | chip8.cpp:233 | Fx1E adds Vx to I modulo 2^16, no flag |
| Properties.LoadsByte | chip8.cpp:108-111 | 6xkk sets Vx to kk; nothing else changes but pc, by 2 |
| Properties.LoadsIndex | chip8.cpp:158-161 | Annn sets I to nnn; nothing else changes but pc, by 2 |
| Properties.AluSteps | chip8.cpp:118-149 | 8xyN sets the registers to `Arithmetic` of the decoded x, y and N, keeps I and every other field, and adds 2 to pc |
| Properties.AddByteKeepsFlag | chip8.cpp:113-116 | 7xkk, 7Fkk included, sets Vx to Vx + kk modulo 256 and changes nothing else but pc; with x ≠ F, VF keeps its value |
| Properties.CycleFetches | chip8.cpp:56 | the cycle keeps the fetched big-endian word in `opcode` |
| Properties.WaitingRepeats | chip8.cpp:221-229 | Fx0A with no key changes only `opcode`, and the next cycle does the same |
| Properties.KeyEndsWait | chip8.cpp:221-230 | Fx0A with a key: Vx is the highest pressed key, pc moves by 2, the timers tick, nothing else changes but `opcode` |
| Properties.TimersTick | chip8.cpp:255-259 | on every completed cycle both timers count down by one, stopping at 0 |
| Chip8.Chip8.constructor | chip8.cpp:12-37 | the new object holds the initial state |
| Chip8.Chip8.LoadROM | chip8.cpp:47-49 | the object holds the state with the image loaded |
| Chip8.Chip8.WriteMemory | chip8.cpp:34-36 | the byte copy loop writes the data from `at` on |
| Chip8.Chip8.Cycle | chip8.cpp:54-260 | one cycle on the object is `Semantics.Cycle` |
| Chip8.Chip8.UpdateTimers | chip8.cpp:255-259 | each timer decremented unless zero |
| Chip8.Chip8.Execute | chip8.cpp:59-253 | the dispatch is `Semantics.Execute`, and it completes unless Fx0A waits |
| Chip8.Chip8.ExecuteFlow | chip8.cpp:60-85 | matches `Semantics.ExecuteFlow` |
| Chip8.Chip8.ExecuteSkip | chip8.cpp:87-106 | matches `Semantics.ExecuteSkip` |
| Chip8.Chip8.ExecuteLoad | chip8.cpp:108-170 | matches `Semantics.ExecuteLoad` |
| Chip8.Chip8.SkipIf | chip8.cpp:88-91 | pc moves by 4 if the condition holds, else by 2 |
| Chip8.Chip8.ClearDisplay | chip8.cpp:63 | every pixel set to 0 |
| Chip8.Chip8.ExecuteAlu | chip8.cpp:121-147 | the register array after 8xyN is `Semantics.Arithmetic`, whose value for each N is given by `CopyCopies`, `BitwiseOps`, `AddCarries`, `SubBorrows`, `ShrShiftsOut`, `SubnBorrows` and `ShlShiftsOut` when x ≠ F (and y ≠ F for 8xy5 and 8xy7), and by the flag lemmas of the VF write-order note otherwise |
| Chip8.Chip8.Draw | chip8.cpp:172-192 | the nested loops give `Semantics.Draw` |
| Chip8.Chip8.DrawRow | chip8.cpp:182-191 | the column loop advances the partial blit and the collision flag by one row |
| Chip8.Chip8.ExecuteMisc | chip8.cpp:217-248 | matches `Semantics.ExecuteMisc`; completes unless Fx0A waits |
| Chip8.Chip8.ExecuteSetting | chip8.cpp:220-234 | matches `Semantics.ExecuteMisc` for Fx07, Fx15, Fx18, Fx1E, Fx29 |
| Chip8.Chip8.ExecuteTransfer | chip8.cpp:235-245 | matches `Semantics.ExecuteMisc` for Fx33, Fx55, Fx65 |
| Chip8.Chip8.StoreDigits | chip8.cpp:236-238 | memory from I holds the decimal digits |
| Chip8.Chip8.ScanKeys | chip8.cpp:222-228 | the key scan reports a key iff one is pressed and leaves the highest one in Vx |
| Chip8.Chip8.StoreRegisters | chip8.cpp:241 | memory from I holds V0..Vx |
| Chip8.Chip8.LoadRegisters | chip8.cpp:244 | V0..Vx hold memory from I |

## Left out

- Opening and reading the ROM file in `LoadROM` (chip8.cpp:39-46) is left out. The model's loader takes the image bytes. A file that fails to open loads nothing, which is the loader applied to the empty image.
- An image longer than 3584 bytes overruns memory in the C++. The model requires one that fits.
- `rand()` in Cxkk becomes the parameter `rnd`, standing for `rand() % 256`.
- chip8.h is not part of this model. The field widths used here are:
  - uint8_t for memory, the registers, sp and the timers;
  - uint16_t for I, pc, the stack entries and `opcode`;
  - uint32_t for pixels.

  The model assumes that every field starts at zero before the constructor body runs.
- The platform layer is not modelled: the window, the rendering of the framebuffer, the keyboard that sets the key flags between cycles, and the driver loop that times the cycles. In the model the key flags are an array that a cycle only reads.
- Stack underflow and overflow, out-of-range key indices and memory accesses past 4096 are undefined behaviour in the C++. They become preconditions: no error results are modelled, because the code signals none.
- Sound output when the sound timer is non-zero is done by the platform layer and is left out.
- Semantics.Execute: its own contract only frames the result (well-formed, keys and `opcode` untouched). What each operation does is stated by the lemmas in `Properties` and by the class methods proved equal to it.
- Semantics.ExecuteFlow, Semantics.ExecuteSkip, Semantics.ExecuteLoad, Semantics.ExecuteMisc, Semantics.Draw: their own contracts state which fields each family may change. The value each operation gives those fields is stated by one lemma per operation in `Properties` (for the skips `ByteSkips`, `RegistersEqualSkips`, `RegistersDifferSkips` and `KeySkips`; for 6xkk and Annn `LoadsByte` and `LoadsIndex`; for the nine 8xyN operations `AluSteps`, which gives the post-state in terms of `Arithmetic`, together with the lemmas on `Arithmetic` that give the registers, from `CopyCopies` to `ShlFlagTarget`).
- The grouping of the dispatch into `ExecuteFlow`, `ExecuteSkip`, `ExecuteLoad`, `Draw` and `ExecuteMisc` is a modelling choice. The C++ has one switch. Each group keeps the C++ statements of its cases.
