/** Decoding of a 16-bit instruction word into the operation it selects, following the nested
    switches of the cycle: on the top nibble, then on the low nibble (8xyN) or the low byte
    (0nnn, Exkk, Fxkk). */
module Decoder {
  import opened Bits

  /** A 12-bit address field (nnn). */
  type Address = a: int | 0 <= a < 0x1000

  /** The operations of the 8xyN family, selected by the low nibble N. */
  datatype AluOp =
    | Copy    // 8xy0  Vx := Vy
    | BitOr   // 8xy1  Vx := Vx | Vy
    | BitAnd  // 8xy2  Vx := Vx & Vy
    | BitXor  // 8xy3  Vx := Vx ^ Vy
    | Add     // 8xy4  Vx := Vx + Vy, VF := carry
    | Sub     // 8xy5  Vx := Vx - Vy, VF := not borrow
    | Shr     // 8xy6  Vx := Vx >> 1, VF := the bit shifted out
    | Subn    // 8xy7  Vx := Vy - Vx, VF := not borrow
    | Shl     // 8xyE  Vx := Vx << 1, VF := the bit shifted out

  /** The operations of the Fxkk family, selected by the low byte kk. */
  datatype MiscOp =
    | GetDelay   // Fx07  Vx := delay timer
    | WaitKey    // Fx0A  wait for a key, Vx := the key
    | SetDelay   // Fx15  delay timer := Vx
    | SetSound   // Fx18  sound timer := Vx
    | AddIndex   // Fx1E  I := I + Vx
    | Glyph      // Fx29  I := address of the glyph of digit Vx
    | Bcd        // Fx33  store the three decimal digits of Vx from I on
    | Store      // Fx55  store V0..Vx from I on
    | Load       // Fx65  load V0..Vx from I on

  /** One operation, with its operand fields; mnemonics after the instruction set's own. */
  datatype Instr =
    | Cls                                  // 00E0  clear the display
    | Ret                                  // 00EE  return from a subroutine
    | Jp(nnn: Address)                     // 1nnn  jump
    | Call(nnn: Address)                   // 2nnn  call a subroutine
    | SeByte(x: Nibble, kk: Byte)          // 3xkk  skip if Vx == kk
    | SneByte(x: Nibble, kk: Byte)         // 4xkk  skip if Vx != kk
    | SeReg(x: Nibble, y: Nibble)          // 5xy?  skip if Vx == Vy
    | LdByte(x: Nibble, kk: Byte)          // 6xkk  Vx := kk
    | AddByte(x: Nibble, kk: Byte)         // 7xkk  Vx := Vx + kk
    | Alu(x: Nibble, y: Nibble, op: AluOp) // 8xyN
    | SneReg(x: Nibble, y: Nibble)         // 9xy?  skip if Vx != Vy
    | LdI(nnn: Address)                    // Annn  I := nnn
    | JpV0(nnn: Address)                   // Bnnn  jump to nnn + V0
    | Rnd(x: Nibble, kk: Byte)             // Cxkk  Vx := random byte & kk
    | Drw(x: Nibble, y: Nibble, n: Nibble) // Dxyn  draw an n-row sprite
    | Skp(x: Nibble)                       // Ex9E  skip if key Vx is pressed
    | Sknp(x: Nibble)                      // ExA1  skip if key Vx is not pressed
    | Misc(x: Nibble, mop: MiscOp)         // Fxkk
    | Nop                                  // any word no case selects: only pc advances

  /** The four nibbles of a word, from the most significant: op >> 12, (op & 0x0F00) >> 8,
      (op & 0x00F0) >> 4 and op & 0x000F, written as the equal divisions and remainders. */
  function FieldT(op: Word): Nibble { op / 0x1000 }
  function FieldX(op: Word): Nibble { (op / 0x100) % 0x10 }
  function FieldY(op: Word): Nibble { (op / 0x10) % 0x10 }
  function FieldN(op: Word): Nibble { op % 0x10 }

  /** The operation a word selects. */
  function Decode(op: Word): Instr
  {
    DecodeNibbles(FieldT(op), FieldX(op), FieldY(op), FieldN(op))
  }

  /** The switch on the top nibble t; kk (op & 0x00FF) and nnn (op & 0x0FFF) are the low two and
      three nibbles. */
  function DecodeNibbles(t: Nibble, x: Nibble, y: Nibble, n: Nibble): Instr
  {
    var kk: Byte := y * 0x10 + n;
    var nnn: Address := x * 0x100 + kk;
    match t
    case 0x0 => DecodeSystem(kk)
    case 0x1 => Jp(nnn)
    case 0x2 => Call(nnn)
    case 0x3 => SeByte(x, kk)
    case 0x4 => SneByte(x, kk)
    case 0x5 => SeReg(x, y)
    case 0x6 => LdByte(x, kk)
    case 0x7 => AddByte(x, kk)
    case 0x8 => DecodeArithmetic(x, y, n)
    case 0x9 => SneReg(x, y)
    case 0xA => LdI(nnn)
    case 0xB => JpV0(nnn)
    case 0xC => Rnd(x, kk)
    case 0xD => Drw(x, y, n)
    case 0xE => DecodeKeySkip(x, kk)
    case _ =>
      // t == 0xF: every top nibble has a case, so the switch's own default never runs
      DecodeMisc(x, kk)
  }

  /** 0nnn: the switch on the low byte. */
  function DecodeSystem(kk: Byte): (i: Instr)
    ensures i == Cls || i == Ret || i == Nop
    ensures i != Nop ==> Layout(i).2 * 0x10 + Layout(i).3 == kk
  {
    if kk == 0xE0 then Cls
    else if kk == 0xEE then Ret
    else Nop
  }

  /** 8xyN: the switch on the low nibble. */
  function DecodeArithmetic(x: Nibble, y: Nibble, n: Nibble): (i: Instr)
    ensures i == Nop || (i.Alu? && i.x == x && i.y == y && AluCode(i.op) == n)
  {
    if n == 0x0 then Alu(x, y, Copy)
    else if n == 0x1 then Alu(x, y, BitOr)
    else if n == 0x2 then Alu(x, y, BitAnd)
    else if n == 0x3 then Alu(x, y, BitXor)
    else if n == 0x4 then Alu(x, y, Add)
    else if n == 0x5 then Alu(x, y, Sub)
    else if n == 0x6 then Alu(x, y, Shr)
    else if n == 0x7 then Alu(x, y, Subn)
    else if n == 0xE then Alu(x, y, Shl)
    else Nop
  }

  /** Exkk: the switch on the low byte. */
  function DecodeKeySkip(x: Nibble, kk: Byte): (i: Instr)
    ensures i == Nop || ((i.Skp? || i.Sknp?) && i.x == x && Layout(i).2 * 0x10 + Layout(i).3 == kk)
  {
    if kk == 0x9E then Skp(x)
    else if kk == 0xA1 then Sknp(x)
    else Nop
  }

  /** Fxkk: the switch on the low byte. */
  function DecodeMisc(x: Nibble, kk: Byte): (i: Instr)
    ensures i == Nop || (i.Misc? && i.x == x && MiscCode(i.mop).0 * 0x10 + MiscCode(i.mop).1 == kk)
  {
    if kk == 0x07 then Misc(x, GetDelay)
    else if kk == 0x0A then Misc(x, WaitKey)
    else if kk == 0x15 then Misc(x, SetDelay)
    else if kk == 0x18 then Misc(x, SetSound)
    else if kk == 0x1E then Misc(x, AddIndex)
    else if kk == 0x29 then Misc(x, Glyph)
    else if kk == 0x33 then Misc(x, Bcd)
    else if kk == 0x55 then Misc(x, Store)
    else if kk == 0x65 then Misc(x, Load)
    else Nop
  }

  /** The instruction word with nibbles t, x, y, n from the most significant end. */
  function Word4(t: Nibble, x: Nibble, y: Nibble, n: Nibble): Word
  {
    t * 0x1000 + x * 0x100 + y * 0x10 + n
  }

  /** The low nibble that selects each 8xyN operation. */
  function AluCode(op: AluOp): Nibble
  {
    match op
    case Copy => 0x0
    case BitOr => 0x1
    case BitAnd => 0x2
    case BitXor => 0x3
    case Add => 0x4
    case Sub => 0x5
    case Shr => 0x6
    case Subn => 0x7
    case Shl => 0xE
  }

  /** The two low nibbles that select each Fxkk operation. */
  function MiscCode(op: MiscOp): (Nibble, Nibble)
  {
    match op
    case GetDelay => (0x0, 0x7)
    case WaitKey => (0x0, 0xA)
    case SetDelay => (0x1, 0x5)
    case SetSound => (0x1, 0x8)
    case AddIndex => (0x1, 0xE)
    case Glyph => (0x2, 0x9)
    case Bcd => (0x3, 0x3)
    case Store => (0x5, 0x5)
    case Load => (0x6, 0x5)
  }

  /** The four nibbles of the canonical word of each operation (the low nibble of 5xy? and
      9xy? is 0). */
  function Layout(i: Instr): (Nibble, Nibble, Nibble, Nibble)
  {
    match i
    case Cls => (0x0, 0x0, 0xE, 0x0)
    case Ret => (0x0, 0x0, 0xE, 0xE)
    case Jp(nnn) => (0x1, nnn / 0x100, nnn / 0x10 % 0x10, nnn % 0x10)
    case Call(nnn) => (0x2, nnn / 0x100, nnn / 0x10 % 0x10, nnn % 0x10)
    case SeByte(x, kk) => (0x3, x, kk / 0x10, kk % 0x10)
    case SneByte(x, kk) => (0x4, x, kk / 0x10, kk % 0x10)
    case SeReg(x, y) => (0x5, x, y, 0x0)
    case LdByte(x, kk) => (0x6, x, kk / 0x10, kk % 0x10)
    case AddByte(x, kk) => (0x7, x, kk / 0x10, kk % 0x10)
    case Alu(x, y, op) => (0x8, x, y, AluCode(op))
    case SneReg(x, y) => (0x9, x, y, 0x0)
    case LdI(nnn) => (0xA, nnn / 0x100, nnn / 0x10 % 0x10, nnn % 0x10)
    case JpV0(nnn) => (0xB, nnn / 0x100, nnn / 0x10 % 0x10, nnn % 0x10)
    case Rnd(x, kk) => (0xC, x, kk / 0x10, kk % 0x10)
    case Drw(x, y, n) => (0xD, x, y, n)
    case Skp(x) => (0xE, x, 0x9, 0xE)
    case Sknp(x) => (0xE, x, 0xA, 0x1)
    case Misc(x, op) => (0xF, x, MiscCode(op).0, MiscCode(op).1)
    case Nop => (0x0, 0x0, 0x0, 0x0)
  }

  /** The canonical instruction word of each operation. */
  function Encode(i: Instr): Word
  {
    var (t, x, y, n) := Layout(i);
    Word4(t, x, y, n)
  }

  lemma Split(q: int, r: int, m: int)
    requires 0 <= r < m && (m == 0x10 || m == 0x100 || m == 0x1000)
    ensures (q * m + r) / m == q && (q * m + r) % m == r
  {
  }

  /** The operation selected by nibbles t, x, y, n has those nibbles as its layout, apart from
      the ones it ignores. */
  predicate LayoutMatches(t: Nibble, x: Nibble, y: Nibble, n: Nibble)
  {
    var i := DecodeNibbles(t, x, y, n);
    i != Nop ==>
      Layout(i) == (t, if i.Cls? || i.Ret? then 0 else x, y, if i.SeReg? || i.SneReg? then 0 else n)
  }

  lemma SelectedLayout(t: Nibble, x: Nibble, y: Nibble, n: Nibble)
    ensures LayoutMatches(t, x, y, n)
  {
    LowFields(x, y, n);
    if t == 0x0 {
      SystemLayout(x, y, n);
    } else if t == 0x8 {
      assert DecodeNibbles(t, x, y, n) == DecodeArithmetic(x, y, n);
    } else if t == 0xE {
      KeySkipLayout(x, y, n);
    } else if t == 0xF {
      MiscLayout(x, y, n);
    } else {
      assert LayoutMatches(t, x, y, n);
    }
  }

  lemma SystemLayout(x: Nibble, y: Nibble, n: Nibble)
    ensures LayoutMatches(0x0, x, y, n)
  {
    var i := DecodeSystem(y * 0x10 + n);
    assert DecodeNibbles(0x0, x, y, n) == i;
    if i != Nop {
      NibblePair(Layout(i).2, Layout(i).3, y, n);
    }
  }

  lemma KeySkipLayout(x: Nibble, y: Nibble, n: Nibble)
    ensures LayoutMatches(0xE, x, y, n)
  {
    var i := DecodeKeySkip(x, y * 0x10 + n);
    assert DecodeNibbles(0xE, x, y, n) == i;
    if i != Nop {
      NibblePair(Layout(i).2, Layout(i).3, y, n);
    }
  }

  lemma MiscLayout(x: Nibble, y: Nibble, n: Nibble)
    ensures LayoutMatches(0xF, x, y, n)
  {
    var i := DecodeMisc(x, y * 0x10 + n);
    assert DecodeNibbles(0xF, x, y, n) == i;
    if i != Nop {
      NibblePair(MiscCode(i.mop).0, MiscCode(i.mop).1, y, n);
    }
  }

  /** Two nibbles are determined by the byte they make up. */
  lemma NibblePair(a: Nibble, b: Nibble, c: Nibble, d: Nibble)
    requires a * 0x10 + b == c * 0x10 + d
    ensures a == c && b == d
  {
    Split(a, b, 0x10);
    Split(c, d, 0x10);
  }

  /** A word is the combination of its four nibbles. */
  lemma WordFields(op: Word)
    ensures op == Word4(FieldT(op), FieldX(op), FieldY(op), FieldN(op))
  {
    var high, low := op / 0x100, op % 0x100;
    assert op == high * 0x100 + low;
    assert high == FieldT(op) * 0x10 + FieldX(op);
    assert low == FieldY(op) * 0x10 + FieldN(op);
  }

  /** The nibbles of the byte kk = yn and of the address nnn = xyn. */
  lemma LowFields(x: Nibble, y: Nibble, n: Nibble)
    ensures var kk := y * 0x10 + n; kk / 0x10 == y && kk % 0x10 == n
    ensures var nnn := x * 0x100 + y * 0x10 + n;
      nnn / 0x100 == x && nnn / 0x10 % 0x10 == y && nnn % 0x10 == n
  {
    Split(y, n, 0x10);
    Split(x, y * 0x10 + n, 0x100);
    Split(x * 0x10 + y, n, 0x10);
    Split(x, y, 0x10);
  }

  /** The nibbles of Word4(t, x, y, n) are t, x, y and n. */
  lemma Fields(t: Nibble, x: Nibble, y: Nibble, n: Nibble)
    ensures var op := Word4(t, x, y, n);
      FieldT(op) == t && FieldX(op) == x && FieldY(op) == y && FieldN(op) == n
  {
    Split(t, x * 0x100 + y * 0x10 + n, 0x1000);
    Split(t, x, 0x10);
    Split(t * 0x100 + x * 0x10 + y, n, 0x10);
    Split(t * 0x10 + x, y, 0x10);
  }

  /** Decoding a word is the switch on its four nibbles. */
  lemma DecodeWord4(t: Nibble, x: Nibble, y: Nibble, n: Nibble)
    ensures Decode(Word4(t, x, y, n)) == DecodeNibbles(t, x, y, n)
  {
    Fields(t, x, y, n);
  }

  /** The nibbles of an address and of a byte put back together. */
  lemma AddressNibbles(nnn: Address)
    ensures (nnn / 0x100) * 0x100 + (nnn / 0x10 % 0x10) * 0x10 + nnn % 0x10 == nnn
  {
  }

  lemma ByteNibbles(kk: Byte)
    ensures (kk / 0x10) * 0x10 + kk % 0x10 == kk
  {
  }

  /** The switch on the nibbles of i's layout selects i. */
  predicate Chooses(i: Instr)
  {
    var (t, x, y, n) := Layout(i);
    DecodeNibbles(t, x, y, n) == i
  }

  /** The low nibble of each 8xyN operation selects it. */
  lemma AluLayouts(x: Nibble, y: Nibble, op: AluOp)
    ensures Chooses(Alu(x, y, op))
  {
    match op
    case Copy =>
    case BitOr =>
    case BitAnd =>
    case BitXor =>
    case Add =>
    case Sub =>
    case Shr =>
    case Subn =>
    case Shl =>
  }

  /** The low byte of each Fxkk operation selects it. */
  lemma MiscLayouts(x: Nibble, op: MiscOp)
    ensures Chooses(Misc(x, op))
  {
    match op
    case GetDelay =>
    case WaitKey =>
    case SetDelay =>
    case SetSound =>
    case AddIndex =>
    case Glyph =>
    case Bcd =>
    case Store =>
    case Load =>
  }

  lemma DecodeLayout(i: Instr)
    ensures Chooses(i)
  {
    match i
    case Jp(nnn) => AddressNibbles(nnn);
    case Call(nnn) => AddressNibbles(nnn);
    case LdI(nnn) => AddressNibbles(nnn);
    case JpV0(nnn) => AddressNibbles(nnn);
    case SeByte(x, kk) => ByteNibbles(kk);
    case SneByte(x, kk) => ByteNibbles(kk);
    case LdByte(x, kk) => ByteNibbles(kk);
    case AddByte(x, kk) => ByteNibbles(kk);
    case Rnd(x, kk) => ByteNibbles(kk);
    case Alu(x, y, op) => AluLayouts(x, y, op);
    case Misc(x, op) => MiscLayouts(x, op);
    case _ =>
  }

  /** Re-encoding the operation a word selects gives the word back, less the nibble the operation
      ignores: x for 00E0 and 00EE, the low nibble for 5xy? and 9xy?. */
  lemma EncodeDecode(op: Word)
    ensures var i := Decode(op);
      i != Nop ==> Encode(i) == op - (if i.Cls? || i.Ret? then FieldX(op) * 0x100 else 0)
                                   - (if i.SeReg? || i.SneReg? then FieldN(op) else 0)
  {
    WordFields(op);
    SelectedLayout(FieldT(op), FieldX(op), FieldY(op), FieldN(op));
    assert LayoutMatches(FieldT(op), FieldX(op), FieldY(op), FieldN(op));
  }

  /** Decoding recovers every operation from its canonical word. */
  lemma DecodeEncode(i: Instr)
    ensures Decode(Encode(i)) == i
  {
    var (t, x, y, n) := Layout(i);
    DecodeWord4(t, x, y, n);
    DecodeLayout(i);
  }
}
