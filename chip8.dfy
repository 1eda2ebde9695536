/** The interpreter object: its arrays and registers are updated in place by the constructor, the
    program loader and the fetch-decode-execute cycle, each proved to do what the functions of
    Semantics and MachineState say. */
module Chip8 {
  import opened Bits
  import opened MachineState
  import opened Decoder
  import opened Sprite
  import Semantics

  class Chip8 {
    const memory: array<Byte>
    const registers: array<Byte>
    var index: Word
    var pc: Word
    const stack: array<Word>
    var sp: nat
    var delayTimer: Byte
    var soundTimer: Byte
    /** Written by the platform layer between cycles; a cycle only reads it. */
    const keypad: array<bool>
    const video: array<Pixel>
    var opcode: Word

    /** The array sizes, the two byte arrays being distinct, and sp within the stack. */
    ghost predicate Valid()
      reads this
    {
      memory.Length == MemorySize && registers.Length == RegisterCount &&
      stack.Length == StackSize && keypad.Length == KeyCount && video.Length == VideoSize &&
      memory != registers && sp <= StackSize
    }

    /** The machine state the object holds. */
    ghost function Abs(): State
      reads this, memory, registers, stack, keypad, video
    {
      State(memory[..], registers[..], index, pc, stack[..], sp, delayTimer, soundTimer,
            keypad[..], video[..], opcode)
    }

    /** Every field zero, then pc at StartAddress and the glyph table copied to
        FontsetStartAddress one byte at a time. */
    constructor ()
      ensures Valid() && Abs() == Initial()
      ensures fresh(memory) && fresh(registers) && fresh(stack) && fresh(keypad) && fresh(video)
    {
      memory := new Byte[MemorySize](_ => 0);
      registers := new Byte[RegisterCount](_ => 0);
      stack := new Word[StackSize](_ => 0);
      keypad := new bool[KeyCount](_ => false);
      video := new Pixel[VideoSize](_ => Off);
      index, sp, delayTimer, soundTimer, opcode := 0, 0, 0, 0, 0;
      pc := StartAddress;
      new;
      assert memory[..] == seq(MemorySize, _ => 0);
      WriteMemory(FontsetStartAddress, Fontset);
    }

    /** The program image copied byte for byte to memory from StartAddress on. */
    method LoadROM(rom: seq<Byte>)
      requires Valid() && |rom| <= MaxRomSize
      modifies memory
      ensures Valid() && Abs() == LoadImage(old(Abs()), rom)
    {
      WriteMemory(StartAddress, rom);
    }

    /** memory[at + i] := data[i] for i = 0..|data| - 1, in increasing order. */
    method WriteMemory(at: nat, data: seq<Byte>)
      requires Valid() && at + |data| <= MemorySize
      modifies memory
      ensures memory[..] == Overwrite(old(memory[..]), at, data)
    {
      for i := 0 to |data|
        invariant forall a :: 0 <= a < MemorySize ==>
          memory[a] == if at <= a < at + i then data[a - at] else old(memory[a])
      {
        memory[at + i] := data[i];
      }
      assert memory[..] == Overwrite(old(memory[..]), at, data);
    }

    /** One fetch-decode-execute step; `rnd` is the value of `rand() % 256` this cycle would
        draw. An Fx0A that finds no key pressed returns before the timers are updated. */
    method Cycle(rnd: Byte)
      requires Valid() && Semantics.Runnable(Abs())
      modifies this, memory, registers, stack, video
      ensures Valid() && Abs() == Semantics.Cycle(old(Abs()), rnd)
    {
      opcode := (memory[pc] as int) * 0x100 + memory[pc + 1];
      ghost var fetched := Abs();
      assert fetched == old(Abs()).(opcode := Semantics.Fetch(old(Abs())));
      var completed := Execute(Decode(opcode), rnd);
      if completed {
        UpdateTimers();
      }
    }

    /** Each timer is decremented unless it is already zero. */
    method UpdateTimers()
      modifies this
      ensures delayTimer == if old(delayTimer) > 0 then old(delayTimer) - 1 else 0
      ensures soundTimer == if old(soundTimer) > 0 then old(soundTimer) - 1 else 0
      ensures index == old(index) && pc == old(pc) && sp == old(sp) && opcode == old(opcode)
    {
      if delayTimer > 0 {
        delayTimer := delayTimer - 1;
      }
      if soundTimer > 0 {
        soundTimer := soundTimer - 1;
      }
    }

    /** The dispatch on the operation; `completed` is false exactly for an Fx0A with no key. */
    method Execute(i: Instr, rnd: Byte) returns (completed: bool)
      requires Valid() && Semantics.Defined(Abs(), i)
      modifies this, memory, registers, stack, video
      ensures Valid() && Abs() == Semantics.Execute(old(Abs()), i, rnd)
      ensures completed == !Semantics.Waits(old(Abs()), i)
    {
      completed := true;
      if Semantics.IsFlow(i) {
        ExecuteFlow(i);
      } else if Semantics.IsSkip(i) {
        ExecuteSkip(i);
      } else if Semantics.IsLoad(i) {
        ExecuteLoad(i, rnd);
      } else if i.Drw? {
        Draw(i.x, i.y, i.n);
        pc := ToWord((pc as int) + 2);
      } else {
        completed := ExecuteMisc(i.x, i.mop);
      }
    }

    /** 00E0, 00EE, 1nnn, 2nnn, Bnnn and the words no case selects. */
    method ExecuteFlow(i: Instr)
      requires Valid() && Semantics.Defined(Abs(), i) && Semantics.IsFlow(i)
      modifies this, stack, video
      ensures Valid() && Abs() == Semantics.ExecuteFlow(old(Abs()), i)
    {
      match i
      case Cls =>
        ClearDisplay();
        pc := ToWord((pc as int) + 2);
      case Ret =>
        sp := sp - 1;
        pc := stack[sp];
        pc := ToWord((pc as int) + 2);
      case Jp(nnn) =>
        pc := nnn;
      case Call(nnn) =>
        stack[sp] := pc;
        sp := sp + 1;
        pc := nnn;
      case JpV0(nnn) =>
        pc := (nnn as int) + registers[0];
      case Nop =>
        pc := ToWord((pc as int) + 2);
    }

    /** 3xkk, 4xkk, 5xy?, 9xy?, Ex9E and ExA1. */
    method ExecuteSkip(i: Instr)
      requires Valid() && Semantics.Defined(Abs(), i) && Semantics.IsSkip(i)
      modifies this
      ensures Valid() && Abs() == Semantics.ExecuteSkip(old(Abs()), i)
    {
      match i
      case SeByte(x, kk) =>
        SkipIf(registers[x] == kk);
      case SneByte(x, kk) =>
        SkipIf(registers[x] != kk);
      case SeReg(x, y) =>
        SkipIf(registers[x] == registers[y]);
      case SneReg(x, y) =>
        SkipIf(registers[x] != registers[y]);
      case Skp(x) =>
        SkipIf(keypad[registers[x]]);
      case Sknp(x) =>
        SkipIf(!keypad[registers[x]]);
    }

    /** 6xkk, 7xkk, 8xyN, Annn and Cxkk. */
    method ExecuteLoad(i: Instr, rnd: Byte)
      requires Valid() && Semantics.IsLoad(i)
      modifies this, registers
      ensures Valid() && Abs() == Semantics.ExecuteLoad(old(Abs()), i, rnd)
    {
      match i {
        case LdByte(x, kk) =>
          registers[x] := kk;
        case AddByte(x, kk) =>
          registers[x] := ToByte((registers[x] as int) + kk);
        case Alu(x, y, op) =>
          ExecuteAlu(x, y, op);
        case LdI(nnn) =>
          index := nnn;
        case Rnd(x, kk) =>
          registers[x] := ByteOp(And, rnd, kk);
      }
      pc := ToWord((pc as int) + 2);
    }

    /** `if (cond) pc += 4; else pc += 2;` */
    method SkipIf(cond: bool)
      modifies this
      ensures pc == ToWord((old(pc) as int) + if cond then 4 else 2)
      ensures index == old(index) && sp == old(sp) && delayTimer == old(delayTimer)
      ensures soundTimer == old(soundTimer) && opcode == old(opcode)
    {
      if cond {
        pc := ToWord((pc as int) + 4);
      } else {
        pc := ToWord((pc as int) + 2);
      }
    }

    /** 00E0: every pixel set to 0. */
    method ClearDisplay()
      requires Valid()
      modifies video
      ensures video[..] == seq(VideoSize, _ => Off)
    {
      forall p | 0 <= p < video.Length {
        video[p] := Off;
      }
    }

    /** 8xyN on the register array, in the order the interpreter writes VF and Vx. */
    method ExecuteAlu(x: Nibble, y: Nibble, op: AluOp)
      requires Valid()
      modifies registers
      ensures registers[..] == Semantics.Arithmetic(old(registers[..]), x, y, op)
    {
      match op
      case Copy =>
        registers[x] := registers[y];
      case BitOr =>
        registers[x] := ByteOp(Or, registers[x], registers[y]);
      case BitAnd =>
        registers[x] := ByteOp(And, registers[x], registers[y]);
      case BitXor =>
        registers[x] := ByteOp(Xor, registers[x], registers[y]);
      case Add =>
        var sum: int := (registers[x] as int) + registers[y];
        registers[Flag] := if sum > 255 then 1 else 0;
        registers[x] := ToByte(sum);
      case Sub =>
        registers[Flag] := if registers[x] > registers[y] then 1 else 0;
        registers[x] := ToByte((registers[x] as int) - registers[y]);
      case Shr =>
        registers[Flag] := ByteOp(And, registers[x], 0x1);
        registers[x] := registers[x] / 2;
      case Subn =>
        registers[Flag] := if registers[y] > registers[x] then 1 else 0;
        registers[x] := ToByte((registers[y] as int) - registers[x]);
      case Shl =>
        registers[Flag] := ShiftRight(ByteOp(And, registers[x], 0x80), 7);
        registers[x] := ToByte((registers[x] as int) * 2);
    }

    /** Dxyn: rows 0..n-1 of the sprite at I, each drawn by DrawRow; (Vx, Vy) is read before VF
        is cleared. */
    method Draw(x: Nibble, y: Nibble, n: Nibble)
      requires Valid() && (n == 0 || index + n <= MemorySize)
      modifies registers, video
      ensures Abs() == Semantics.Draw(old(Abs()), x, y, n)
    {
      var xPos := registers[x];
      var yPos := registers[y];
      registers[Flag] := 0;
      ghost var sprite := Semantics.SpriteAt(old(Abs()), n);
      ghost var before := video[..];
      ghost var regs := old(registers[..]);
      assert video[..] == PartialBlit(before, sprite, xPos, yPos, 0, 0);
      var row := 0;
      while row < n
        invariant 0 <= row <= n
        invariant video[..] == PartialBlit(before, sprite, xPos, yPos, row, 0)
        invariant registers[..] ==
          regs[Flag := if CollisionBefore(before, sprite, xPos, yPos, row, 0) then 1 else 0]
      {
        DrawRow(before, sprite, regs, xPos, yPos, row, memory[index + row]);
        row := row + 1;
      }
    }

    /** Columns 0..7 of one sprite row, most significant bit first: each set bit toggles its
        pixel and sets VF if the pixel was on. */
    method DrawRow(ghost before: seq<Pixel>, ghost sprite: seq<Byte>, ghost regs: seq<Byte>,
                   xPos: Byte, yPos: Byte, row: nat, spriteByte: Byte)
      requires Valid() && |before| == VideoSize && |regs| == RegisterCount
      requires row < |sprite| <= VideoHeight && sprite[row] == spriteByte
      requires video[..] == PartialBlit(before, sprite, xPos, yPos, row, 0)
      requires registers[..] ==
        regs[Flag := if CollisionBefore(before, sprite, xPos, yPos, row, 0) then 1 else 0]
      modifies registers, video
      ensures video[..] == PartialBlit(before, sprite, xPos, yPos, row + 1, 0)
      ensures registers[..] ==
        regs[Flag := if CollisionBefore(before, sprite, xPos, yPos, row + 1, 0) then 1 else 0]
    {
      var col := 0;
      while col < 8
        invariant 0 <= col <= 8
        invariant video[..] == PartialBlit(before, sprite, xPos, yPos, row, col)
        invariant registers[..] ==
          regs[Flag := if CollisionBefore(before, sprite, xPos, yPos, row, col) then 1 else 0]
      {
        BlitStep(before, sprite, xPos, yPos, row, col);
        if Bitwise(And, spriteByte, ShiftRight(0x80, col), 8) != 0 {
          var screenX := (xPos + col) % VideoWidth;
          var screenY := (yPos + row) % VideoHeight;
          var p := screenY * VideoWidth + screenX;
          if video[p] == On {
            registers[Flag] := 1;
          }
          video[p] := Toggle(video[p]);
        }
        col := col + 1;
      }
      NextRow(before, sprite, xPos, yPos, row);
    }

    /** Fxkk; `completed` is false when Fx0A finds no key, and then nothing has changed. */
    method ExecuteMisc(x: Nibble, op: MiscOp) returns (completed: bool)
      requires Valid() && Semantics.Defined(Abs(), Misc(x, op))
      modifies this, memory, registers
      ensures Valid() && Abs() == Semantics.ExecuteMisc(old(Abs()), x, op)
      ensures completed == !Semantics.Waits(old(Abs()), Misc(x, op))
    {
      completed := true;
      if op.WaitKey? {
        completed := ScanKeys(x);
        if completed {
          pc := ToWord((pc as int) + 2);
        }
      } else if op.Bcd? || op.Store? || op.Load? {
        ExecuteTransfer(x, op);
      } else {
        ExecuteSetting(x, op);
      }
    }

    /** Fx07, Fx15, Fx18, Fx1E and Fx29: one register, timer or I set from another. */
    method ExecuteSetting(x: Nibble, op: MiscOp)
      requires Valid() && !op.WaitKey? && !op.Bcd? && !op.Store? && !op.Load?
      modifies this, registers
      ensures Valid() && Abs() == Semantics.ExecuteMisc(old(Abs()), x, op)
    {
      match op {
        case GetDelay =>
          registers[x] := delayTimer;
        case SetDelay =>
          delayTimer := registers[x];
        case SetSound =>
          soundTimer := registers[x];
        case AddIndex =>
          index := ToWord((index as int) + registers[x]);
        case Glyph =>
          index := FontsetStartAddress + (registers[x] as int) * GlyphSize;
      }
      pc := ToWord((pc as int) + 2);
    }

    /** Fx33, Fx55 and Fx65: transfers between registers and memory from I on. */
    method ExecuteTransfer(x: Nibble, op: MiscOp)
      requires Valid() && Semantics.Defined(Abs(), Misc(x, op)) && (op.Bcd? || op.Store? || op.Load?)
      modifies this, memory, registers
      ensures Valid() && Abs() == Semantics.ExecuteMisc(old(Abs()), x, op)
    {
      match op {
        case Bcd =>
          StoreDigits(registers[x]);
        case Store =>
          StoreRegisters(x);
        case Load =>
          LoadRegisters(x);
      }
      pc := ToWord((pc as int) + 2);
    }

    /** Fx33: the hundreds, tens and units digits of v at I, I + 1 and I + 2. */
    method StoreDigits(v: Byte)
      requires Valid() && index + 2 < MemorySize
      modifies memory
      ensures memory[..] == Overwrite(old(memory[..]), index, Semantics.Digits(v))
    {
      memory[index] := v / 100;
      memory[index + 1] := (v / 10) % 10;
      memory[index + 2] := v % 10;
      assert memory[..] == Overwrite(old(memory[..]), index, Semantics.Digits(v));
    }

    /** Fx0A's scan of keys 0..15: each pressed key is written to Vx in turn. */
    method ScanKeys(x: Nibble) returns (keyPressed: bool)
      requires Valid()
      modifies registers
      ensures keyPressed == (Semantics.HighestKey(keypad[..], KeyCount) >= 0)
      ensures registers[..] ==
        if keyPressed then old(registers[..])[x := Semantics.HighestKey(keypad[..], KeyCount)]
        else old(registers[..])
    {
      keyPressed := false;
      for k := 0 to KeyCount
        invariant keyPressed == (Semantics.HighestKey(keypad[..], k) >= 0)
        invariant registers[..] ==
          if keyPressed then old(registers[..])[x := Semantics.HighestKey(keypad[..], k)]
          else old(registers[..])
      {
        if keypad[k] {
          registers[x] := k;
          keyPressed := true;
        }
      }
    }

    /** Fx55: memory[I + k] := Vk for k = 0..x. */
    method StoreRegisters(x: Nibble)
      requires Valid() && index + x < MemorySize
      modifies memory
      ensures memory[..] == Overwrite(old(memory[..]), index, registers[..x + 1])
    {
      for k := 0 to x + 1
        invariant forall a :: 0 <= a < MemorySize ==>
          memory[a] == if index <= a < index + k then registers[a - index] else old(memory[a])
      {
        memory[index + k] := registers[k];
      }
      assert memory[..] == Overwrite(old(memory[..]), index, registers[..x + 1]);
    }

    /** Fx65: Vk := memory[I + k] for k = 0..x. */
    method LoadRegisters(x: Nibble)
      requires Valid() && index + x < MemorySize
      modifies registers
      ensures registers[..] == Overwrite(old(registers[..]), 0, memory[index .. index + x + 1])
    {
      for k := 0 to x + 1
        invariant forall r :: 0 <= r < RegisterCount ==>
          registers[r] == if r < k then memory[index + r] else old(registers[r])
      {
        registers[k] := memory[index + k];
      }
      assert registers[..] == Overwrite(old(registers[..]), 0, memory[index .. index + x + 1]);
    }
  }
}
