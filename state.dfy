/** The machine state of the interpreter, the glyph table written at construction and the
    placement of a program image in memory. */
module MachineState {
  import opened Bits

  const MemorySize := 4096
  /** Programs are loaded, and execution starts, at this address. */
  const StartAddress := 0x200
  /** The hexadecimal digit glyphs are stored from this address on. */
  const FontsetStartAddress := 0x50
  /** Bytes per glyph: one byte per row of a 4x5 pixel digit. */
  const GlyphSize := 5
  const RegisterCount := 16
  const StackSize := 16
  const KeyCount := 16
  const VideoWidth := 64
  const VideoHeight := 32
  const VideoSize := VideoWidth * VideoHeight
  /** VF, the register used as carry, borrow and collision flag. */
  const Flag: Nibble := 0xF

  /** The sixteen glyphs 0..F, five rows each. */
  const Fontset: seq<Byte> := [
    0xF0, 0x90, 0x90, 0x90, 0xF0, // 0
    0x20, 0x60, 0x20, 0x20, 0x70, // 1
    0xF0, 0x10, 0xF0, 0x80, 0xF0, // 2
    0xF0, 0x10, 0xF0, 0x10, 0xF0, // 3
    0x90, 0x90, 0xF0, 0x10, 0x10, // 4
    0xF0, 0x80, 0xF0, 0x10, 0xF0, // 5
    0xF0, 0x80, 0xF0, 0x90, 0xF0, // 6
    0xF0, 0x10, 0x20, 0x40, 0x40, // 7
    0xF0, 0x90, 0xF0, 0x90, 0xF0, // 8
    0xF0, 0x90, 0xF0, 0x10, 0xF0, // 9
    0xF0, 0x90, 0xF0, 0x90, 0x90, // A
    0xE0, 0x90, 0xE0, 0x90, 0xE0, // B
    0xF0, 0x80, 0x80, 0x80, 0xF0, // C
    0xE0, 0x90, 0x90, 0x90, 0xE0, // D
    0xF0, 0x80, 0xF0, 0x80, 0xF0, // E
    0xF0, 0x80, 0xF0, 0x80, 0x80  // F
  ]

  /** A snapshot of every field of the machine; `opcode` is the last instruction word fetched. */
  datatype State = State(
    memory: seq<Byte>,
    registers: seq<Byte>,
    index: Word,
    pc: Word,
    stack: seq<Word>,
    sp: nat,
    delayTimer: Byte,
    soundTimer: Byte,
    keypad: seq<bool>,
    video: seq<Pixel>,
    opcode: Word)

  /** The sizes of the fixed arrays, and a stack pointer within the stack. */
  predicate WellFormed(s: State)
  {
    |s.memory| == MemorySize && |s.registers| == RegisterCount &&
    |s.stack| == StackSize && s.sp <= StackSize &&
    |s.keypad| == KeyCount && |s.video| == VideoSize
  }

  /** `s` with `data` written over it from position `at` on. */
  function Overwrite<T>(s: seq<T>, at: nat, data: seq<T>): (r: seq<T>)
    requires at + |data| <= |s|
    ensures |r| == |s|
    ensures forall i :: 0 <= i < |s| ==> r[i] == if at <= i < at + |data| then data[i - at] else s[i]
  {
    s[..at] + data + s[at + |data|..]
  }

  /** The state right after construction: the glyph table sits at FontsetStartAddress, all other
      memory and every other field is zero, and execution starts at StartAddress. */
  function Initial(): (s: State)
    ensures WellFormed(s)
    ensures s.pc == StartAddress && s.sp == 0 && s.index == 0
    ensures forall i :: 0 <= i < |Fontset| ==> s.memory[FontsetStartAddress + i] == Fontset[i]
    ensures forall a :: 0 <= a < MemorySize && !(FontsetStartAddress <= a < FontsetStartAddress + |Fontset|) ==>
      s.memory[a] == 0
    ensures forall r :: 0 <= r < RegisterCount ==> s.registers[r] == 0
    ensures forall p :: 0 <= p < VideoSize ==> s.video[p] == 0
    ensures forall k :: 0 <= k < StackSize ==> s.stack[k] == 0
    ensures forall k :: 0 <= k < KeyCount ==> !s.keypad[k]
    ensures s.delayTimer == 0 && s.soundTimer == 0 && s.opcode == 0
  {
    State(
      memory := Overwrite(seq(MemorySize, _ => 0), FontsetStartAddress, Fontset),
      registers := seq(RegisterCount, _ => 0),
      index := 0,
      pc := StartAddress,
      stack := seq(StackSize, _ => 0),
      sp := 0,
      delayTimer := 0,
      soundTimer := 0,
      keypad := seq(KeyCount, _ => false),
      video := seq(VideoSize, _ => 0),
      opcode := 0)
  }

  /** The largest program image that fits between StartAddress and the end of memory. */
  const MaxRomSize := MemorySize - StartAddress

  /** `s` after copying a program image into memory from StartAddress on: the image sits there
      byte for byte, and every other cell and every other field is left alone. The largest image
      that fits is MaxRomSize = 3584 bytes. */
  function LoadImage(s: State, rom: seq<Byte>): (r: State)
    requires WellFormed(s) && |rom| <= MaxRomSize
    ensures WellFormed(r)
    ensures forall i :: 0 <= i < |rom| ==> r.memory[StartAddress + i] == rom[i]
    ensures forall a :: 0 <= a < MemorySize && !(StartAddress <= a < StartAddress + |rom|) ==>
      r.memory[a] == s.memory[a]
    ensures r == s.(memory := r.memory)
    ensures MaxRomSize == 3584
  {
    s.(memory := Overwrite(s.memory, StartAddress, rom))
  }
}
