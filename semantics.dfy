/** What one cycle of the interpreter does to the machine state: fetch the instruction word at pc,
    decode it, execute it, and count the timers down. */
module Semantics {
  import opened Bits
  import opened MachineState
  import opened Decoder
  import opened Sprite

  /** `(memory[pc] << 8) | memory[pc + 1]`: the byte at pc is the high half of the word. */
  function Fetch(s: State): (op: Word)
    requires WellFormed(s) && s.pc + 1 < MemorySize
    ensures op / 0x100 == s.memory[s.pc] && op % 0x100 == s.memory[s.pc + 1]
  {
    (s.memory[s.pc] as int) * 0x100 + s.memory[s.pc + 1]
  }

  /** The conditions under which an operation stays inside the arrays it indexes; the interpreter
      does not check them, so outside them its behaviour is undefined. Only the stack operations,
      the key skips, Dxyn and the three Fxkk transfers from I can leave the arrays. */
  predicate Defined(s: State, i: Instr)
    requires WellFormed(s)
    ensures !Defined(s, i) ==>
      (i.Ret? || i.Call? || i.Skp? || i.Sknp? || i.Drw? ||
       (i.Misc? && (i.mop == Bcd || i.mop == Store || i.mop == Load)))
  {
    match i
    case Ret => s.sp > 0
    case Call(_) => s.sp < StackSize
    case Skp(x) => s.registers[x] < KeyCount
    case Sknp(x) => s.registers[x] < KeyCount
    case Drw(_, _, n) => SpriteFits(s, n)
    case Misc(x, Bcd) => s.index + 2 < MemorySize
    case Misc(x, Store) => s.index + x < MemorySize
    case Misc(x, Load) => s.index + x < MemorySize
    case _ => true
  }

  /** The n sprite rows from I lie inside memory; a sprite of height 0 reads no memory, wherever
      I points. */
  predicate SpriteFits(s: State, n: Nibble)
  {
    n == 0 || s.index + n <= MemorySize
  }

  /** The sprite Dxyn reads: memory[I + row] for row = 0..n-1, and nothing at all when n is 0. */
  function SpriteAt(s: State, n: Nibble): (sprite: seq<Byte>)
    requires WellFormed(s) && SpriteFits(s, n)
    ensures |sprite| == n && forall r :: 0 <= r < n ==> sprite[r] == s.memory[s.index + r]
  {
    if n == 0 then [] else s.memory[s.index .. s.index + n]
  }

  /** `pc += 2` on the 16-bit program counter: pc moves on by two modulo 2^16, and nothing
      else changes. */
  function Advance(s: State): (r: State)
    ensures r == s.(pc := r.pc) && ((r.pc as int) - s.pc - 2) % 0x1_0000 == 0
  {
    s.(pc := ToWord((s.pc as int) + 2))
  }

  /** `pc += 4` when the condition holds, `pc += 2` otherwise, modulo 2^16; nothing else
      changes. */
  function SkipIf(s: State, cond: bool): (r: State)
    ensures r == s.(pc := r.pc) && ((r.pc as int) - s.pc - if cond then 4 else 2) % 0x1_0000 == 0
  {
    s.(pc := ToWord((s.pc as int) + if cond then 4 else 2))
  }

  /** The largest k < n with keypad[k] set, or -1 when there is none: the key the scan from 0 to
      n - 1 records last. */
  function HighestKey(keypad: seq<bool>, n: nat): (k: int)
    requires n <= |keypad|
    ensures -1 <= k < n
    ensures k >= 0 ==> keypad[k] && forall j :: k < j < n ==> !keypad[j]
    ensures k < 0 ==> forall j :: 0 <= j < n ==> !keypad[j]
  {
    if n == 0 then -1
    else if keypad[n - 1] then n - 1
    else HighestKey(keypad, n - 1)
  }

  /** Fx0A with no key pressed: the cycle returns before pc is advanced and the timers tick. */
  predicate Waits(s: State, i: Instr)
    requires WellFormed(s)
  {
    i.Misc? && i.mop == WaitKey && HighestKey(s.keypad, KeyCount) < 0
  }

  /** The three decimal digits of a byte, most significant first. */
  function Digits(v: Byte): (d: seq<Byte>)
    ensures |d| == 3 && d[0] <= 2 && d[1] <= 9 && d[2] <= 9
    ensures (d[0] as int) * 100 + (d[1] as int) * 10 + d[2] == v
  {
    [v / 100, (v / 10) % 10, v % 10]
  }

  /** The registers after an 8xyN operation. The flag register is written in the order the
      interpreter writes it: 8xy4 takes the sum first, then writes VF, then Vx; 8xy5, 8xy6, 8xy7
      and 8xyE write VF first and compute Vx from the registers with VF already set. */
  function Arithmetic(v: seq<Byte>, x: Nibble, y: Nibble, op: AluOp): (r: seq<Byte>)
    requires |v| == RegisterCount
    ensures |r| == RegisterCount
    ensures forall j :: 0 <= j < RegisterCount && j != x && j != Flag ==> r[j] == v[j]
  {
    match op
    case Copy => v[x := v[y]]
    case BitOr => v[x := ByteOp(Or, v[x], v[y])]
    case BitAnd => v[x := ByteOp(And, v[x], v[y])]
    case BitXor => v[x := ByteOp(Xor, v[x], v[y])]
    case Add =>
      var sum: int := (v[x] as int) + v[y];
      var f: seq<Byte> := v[Flag := if sum > 255 then 1 else 0];
      f[x := ToByte(sum)]
    case Sub =>
      var f: seq<Byte> := v[Flag := if v[x] > v[y] then 1 else 0];
      f[x := ToByte((f[x] as int) - f[y])]
    case Shr =>
      var f: seq<Byte> := v[Flag := ByteOp(And, v[x], 0x1)];
      f[x := f[x] / 2]
    case Subn =>
      var f: seq<Byte> := v[Flag := if v[y] > v[x] then 1 else 0];
      f[x := ToByte((f[y] as int) - f[x])]
    case Shl =>
      var f: seq<Byte> := v[Flag := ShiftRight(ByteOp(And, v[x], 0x80), 7)];
      f[x := ToByte((f[x] as int) * 2)]
  }

  /** Dxyn: the n sprite rows at I drawn at (Vx, Vy), which are read before VF is cleared; VF
      then records a collision. */
  function Draw(s: State, x: Nibble, y: Nibble, n: Nibble): (r: State)
    requires WellFormed(s) && SpriteFits(s, n)
    ensures WellFormed(r) && r == s.(registers := r.registers, video := r.video)
    ensures forall j :: 0 <= j < Flag ==> r.registers[j] == s.registers[j]
  {
    var xPos, yPos := s.registers[x], s.registers[y];
    var sprite := SpriteAt(s, n);
    s.(registers := s.registers[Flag := if Collision(s.video, sprite, xPos, yPos) then 1 else 0],
       video := Blit(s.video, sprite, xPos, yPos))
  }

  /** An Fxkk operation; Fx0A with no key pressed leaves the state as it is. */
  function ExecuteMisc(s: State, x: Nibble, op: MiscOp): (r: State)
    requires WellFormed(s) && Defined(s, Misc(x, op))
    ensures WellFormed(r)
    ensures r == s.(memory := r.memory, registers := r.registers, index := r.index, pc := r.pc,
                    delayTimer := r.delayTimer, soundTimer := r.soundTimer)
  {
    var v := s.registers;
    match op
    case GetDelay => Advance(s.(registers := v[x := s.delayTimer]))
    case WaitKey =>
      var k := HighestKey(s.keypad, KeyCount);
      if k < 0 then s else Advance(s.(registers := v[x := k]))
    case SetDelay => Advance(s.(delayTimer := v[x]))
    case SetSound => Advance(s.(soundTimer := v[x]))
    case AddIndex => Advance(s.(index := ToWord((s.index as int) + v[x])))
    case Glyph => Advance(s.(index := FontsetStartAddress + (v[x] as int) * GlyphSize))
    case Bcd => Advance(s.(memory := Overwrite(s.memory, s.index, Digits(v[x]))))
    case Store => Advance(s.(memory := Overwrite(s.memory, s.index, v[..x + 1])))
    case Load => Advance(s.(registers := Overwrite(v, 0, s.memory[s.index .. s.index + x + 1])))
  }

  /** Operations that only move pc (and, for 00E0, 00EE and 2nnn, the screen or the stack). */
  predicate IsFlow(i: Instr)
  {
    i.Cls? || i.Ret? || i.Jp? || i.Call? || i.JpV0? || i.Nop?
  }

  /** The conditional skips. */
  predicate IsSkip(i: Instr)
  {
    i.SeByte? || i.SneByte? || i.SeReg? || i.SneReg? || i.Skp? || i.Sknp?
  }

  /** Operations that set one register, or I, from operands and registers. */
  predicate IsLoad(i: Instr)
  {
    i.LdByte? || i.AddByte? || i.Alu? || i.LdI? || i.Rnd?
  }

  function ExecuteFlow(s: State, i: Instr): (r: State)
    requires WellFormed(s) && Defined(s, i) && IsFlow(i)
    ensures WellFormed(r) && r == s.(video := r.video, stack := r.stack, sp := r.sp, pc := r.pc)
  {
    match i
    case Cls => Advance(s.(video := seq(VideoSize, _ => Off)))
    case Ret => Advance(s.(sp := s.sp - 1, pc := s.stack[s.sp - 1]))
    case Jp(nnn) => s.(pc := nnn)
    case Call(nnn) => s.(stack := s.stack[s.sp := s.pc], sp := s.sp + 1, pc := nnn)
    case JpV0(nnn) => s.(pc := (nnn as int) + s.registers[0])
    case Nop => Advance(s)
  }

  function ExecuteSkip(s: State, i: Instr): (r: State)
    requires WellFormed(s) && Defined(s, i) && IsSkip(i)
    ensures WellFormed(r) && r == s.(pc := r.pc)
  {
    var v := s.registers;
    match i
    case SeByte(x, kk) => SkipIf(s, v[x] == kk)
    case SneByte(x, kk) => SkipIf(s, v[x] != kk)
    case SeReg(x, y) => SkipIf(s, v[x] == v[y])
    case SneReg(x, y) => SkipIf(s, v[x] != v[y])
    case Skp(x) => SkipIf(s, s.keypad[v[x]])
    case Sknp(x) => SkipIf(s, !s.keypad[v[x]])
  }

  function ExecuteLoad(s: State, i: Instr, rnd: Byte): (r: State)
    requires WellFormed(s) && IsLoad(i)
    ensures WellFormed(r) && r == s.(registers := r.registers, index := r.index, pc := ToWord((s.pc as int) + 2))
  {
    var v := s.registers;
    match i
    case LdByte(x, kk) => Advance(s.(registers := v[x := kk]))
    case AddByte(x, kk) => Advance(s.(registers := v[x := ToByte((v[x] as int) + kk)]))
    case Alu(x, y, op) => Advance(s.(registers := Arithmetic(v, x, y, op)))
    case LdI(nnn) => Advance(s.(index := nnn))
    case Rnd(x, kk) => Advance(s.(registers := v[x := ByteOp(And, rnd, kk)]))
  }

  /** The effect of one operation, `rnd` standing for `rand() % 256`. */
  function Execute(s: State, i: Instr, rnd: Byte): (r: State)
    requires WellFormed(s) && Defined(s, i)
    ensures WellFormed(r) && r.keypad == s.keypad && r.opcode == s.opcode
  {
    if IsFlow(i) then ExecuteFlow(s, i)
    else if IsSkip(i) then ExecuteSkip(s, i)
    else if IsLoad(i) then ExecuteLoad(s, i, rnd)
    else if i.Drw? then Advance(Draw(s, i.x, i.y, i.n))
    else ExecuteMisc(s, i.x, i.mop)
  }

  /** Both timers count down by one unless already zero; nothing else changes. */
  function Tick(s: State): (r: State)
    ensures r == s.(delayTimer := r.delayTimer, soundTimer := r.soundTimer)
    ensures s.delayTimer == 0 ==> r.delayTimer == 0
    ensures s.delayTimer > 0 ==> (r.delayTimer as int) + 1 == s.delayTimer
    ensures s.soundTimer == 0 ==> r.soundTimer == 0
    ensures s.soundTimer > 0 ==> (r.soundTimer as int) + 1 == s.soundTimer
  {
    s.(delayTimer := if s.delayTimer > 0 then s.delayTimer - 1 else 0,
       soundTimer := if s.soundTimer > 0 then s.soundTimer - 1 else 0)
  }

  /** A state from which a cycle reads and writes only inside the machine's arrays. */
  predicate Runnable(s: State)
  {
    WellFormed(s) && s.pc + 1 < MemorySize && Defined(s, Decode(Fetch(s)))
  }

  /** One cycle: the fetched word is kept in `opcode`; an Fx0A that finds no key ends the cycle
      there, every other operation completes and the timers tick. */
  function Cycle(s: State, rnd: Byte): (r: State)
    requires Runnable(s)
    ensures WellFormed(r) && r.keypad == s.keypad && r.opcode == Fetch(s)
  {
    var t := s.(opcode := Fetch(s));
    var i := Decode(t.opcode);
    if Waits(t, i) then t else Tick(Execute(t, i, rnd))
  }
}
