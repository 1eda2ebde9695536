/** What the interpreter's operations promise, stated over the functions of Semantics. */
module Properties {
  import opened Bits
  import opened MachineState
  import opened Decoder
  import opened Sprite
  import opened Semantics

  /** Every register other than Vx and VF keeps its value. */
  predicate OthersKept(v: seq<Byte>, r: seq<Byte>, x: Nibble)
    requires |v| == RegisterCount && |r| == RegisterCount
  {
    forall j :: 0 <= j < RegisterCount && j != x && j != Flag ==> r[j] == v[j]
  }

  /** 8xy4: VF:Vx is the 9-bit sum of Vx and Vy. */
  lemma AddCarries(v: seq<Byte>, x: Nibble, y: Nibble)
    requires |v| == RegisterCount && x != Flag
    ensures var r := Arithmetic(v, x, y, Add);
      (r[Flag] as int) * 0x100 + r[x] == (v[x] as int) + v[y] && r[Flag] <= 1 && OthersKept(v, r, x)
  {
  }

  /** 8xy5: Vx - Vy modulo 256, with VF = 1 exactly when Vx > Vy (not when they are equal). */
  lemma SubBorrows(v: seq<Byte>, x: Nibble, y: Nibble)
    requires |v| == RegisterCount && x != Flag && y != Flag
    ensures var r := Arithmetic(v, x, y, Sub);
      ((r[x] as int) + v[y]) % 0x100 == v[x] && (r[Flag] == 1 <==> v[x] > v[y]) && r[Flag] <= 1 &&
      (v[x] >= v[y] ==> r[x] == v[x] - v[y]) && OthersKept(v, r, x)
  {
  }

  /** 8xy7: Vy - Vx modulo 256, with VF = 1 exactly when Vy > Vx. */
  lemma SubnBorrows(v: seq<Byte>, x: Nibble, y: Nibble)
    requires |v| == RegisterCount && x != Flag && y != Flag
    ensures var r := Arithmetic(v, x, y, Subn);
      ((r[x] as int) + v[x]) % 0x100 == v[y] && (r[Flag] == 1 <==> v[y] > v[x]) && r[Flag] <= 1 &&
      (v[y] >= v[x] ==> r[x] == v[y] - v[x]) && OthersKept(v, r, x)
  {
  }

  /** 8xy6: Vx halved, VF the bit shifted out. */
  lemma ShrShiftsOut(v: seq<Byte>, x: Nibble, y: Nibble)
    requires |v| == RegisterCount && x != Flag
    ensures var r := Arithmetic(v, x, y, Shr);
      (r[x] as int) * 2 + r[Flag] == v[x] && r[Flag] <= 1 && OthersKept(v, r, x)
  {
    LowMask(v[x]);
  }

  /** 8xyE: Vx doubled modulo 256, VF the bit shifted out. */
  lemma ShlShiftsOut(v: seq<Byte>, x: Nibble, y: Nibble)
    requires |v| == RegisterCount && x != Flag
    ensures var r := Arithmetic(v, x, y, Shl);
      (r[Flag] as int) * 0x100 + r[x] == (v[x] as int) * 2 && r[Flag] <= 1 && OthersKept(v, r, x)
  {
    HighMask(v[x]);
    Doubling(v[x]);
  }

  lemma Doubling(b: Byte)
    ensures (b / 0x80) * 0x100 + ToByte((b as int) * 2) == (b as int) * 2
  {
  }

  /** 8xy1, 8xy2, 8xy3: each bit of the new Vx is the gate applied to that bit of Vx and Vy;
      VF is not written. */
  lemma BitwiseOps(v: seq<Byte>, x: Nibble, y: Nibble, op: AluOp, g: Gate, i: nat)
    requires |v| == RegisterCount && i < 8
    requires (op == BitOr && g == Or) || (op == BitAnd && g == And) || (op == BitXor && g == Xor)
    ensures var r := Arithmetic(v, x, y, op);
      (Bit(r[x], i) <==> Apply(g, Bit(v[x], i), Bit(v[y], i))) &&
      forall j :: 0 <= j < RegisterCount && j != x ==> r[j] == v[j]
  {
    BitwiseBit(g, v[x], v[y], 8, i);
  }

  /** 8xy0: Vx takes the value of Vy and every other register, VF included, keeps its own. */
  lemma CopyCopies(v: seq<Byte>, x: Nibble, y: Nibble)
    requires |v| == RegisterCount
    ensures var r := Arithmetic(v, x, y, Copy);
      r[x] == v[y] && forall j :: 0 <= j < RegisterCount && j != x ==> r[j] == v[j]
  {
  }

  /** When Vy is VF, 8xy5 subtracts the flag it has just written, not VF's old value. */
  lemma SubReadsNewFlag(v: seq<Byte>, x: Nibble)
    requires |v| == RegisterCount && x != Flag
    ensures var r := Arithmetic(v, x, Flag, Sub);
      r[x] == ToByte((v[x] as int) - if v[x] > v[Flag] then 1 else 0) &&
      r[Flag] == (if v[x] > v[Flag] then 1 else 0) && OthersKept(v, r, x)
  {
  }

  /** 8xF7 likewise subtracts Vx from the flag just written, not from the old VF. */
  lemma SubnReadsNewFlag(v: seq<Byte>, x: Nibble)
    requires |v| == RegisterCount && x != Flag
    ensures var r := Arithmetic(v, x, Flag, Subn);
      r[x] == ToByte(((if v[Flag] > v[x] then 1 else 0) as int) - v[x]) &&
      r[Flag] == (if v[Flag] > v[x] then 1 else 0) && OthersKept(v, r, x)
  {
  }

  /** When Vx is VF, 8Fy5 overwrites the flag it has just written: VF ends up as the flag minus
      Vy modulo 256 (0 for 8FF5), and no other register changes. */
  lemma SubFlagTarget(v: seq<Byte>, y: Nibble)
    requires |v| == RegisterCount
    ensures var r := Arithmetic(v, Flag, y, Sub);
      r[Flag] == (if y == Flag then 0 else ToByte(((if v[Flag] > v[y] then 1 else 0) as int) - v[y])) &&
      forall j :: 0 <= j < RegisterCount && j != Flag ==> r[j] == v[j]
  {
  }

  /** 8Fy7: VF ends up as Vy minus the flag just written, modulo 256 (0 for 8FF7). */
  lemma SubnFlagTarget(v: seq<Byte>, y: Nibble)
    requires |v| == RegisterCount
    ensures var r := Arithmetic(v, Flag, y, Subn);
      r[Flag] == (if y == Flag then 0 else ToByte((v[y] as int) - if v[y] > v[Flag] then 1 else 0)) &&
      forall j :: 0 <= j < RegisterCount && j != Flag ==> r[j] == v[j]
  {
  }

  /** 8Fy6 halves the bit it has just stored in VF, which leaves 0 there. */
  lemma ShrFlagTarget(v: seq<Byte>, y: Nibble)
    requires |v| == RegisterCount
    ensures var r := Arithmetic(v, Flag, y, Shr);
      r[Flag] == 0 && forall j :: 0 <= j < RegisterCount && j != Flag ==> r[j] == v[j]
  {
    LowMask(v[Flag]);
  }

  /** 8FyE doubles the bit it has just stored in VF: VF ends up 2 when its old top bit was set,
      else 0. */
  lemma ShlFlagTarget(v: seq<Byte>, y: Nibble)
    requires |v| == RegisterCount
    ensures var r := Arithmetic(v, Flag, y, Shl);
      r[Flag] == 2 * (v[Flag] / 0x80) && forall j :: 0 <= j < RegisterCount && j != Flag ==> r[j] == v[j]
  {
    HighMask(v[Flag]);
  }

  /** When Vx is VF, the flag is overwritten by the result: 8xy4 leaves the low byte of the sum
      in VF rather than the carry. */
  lemma FlagTargetKeepsResult(v: seq<Byte>, y: Nibble)
    requires |v| == RegisterCount
    ensures var r := Arithmetic(v, Flag, y, Add);
      r[Flag] == ToByte((v[Flag] as int) + v[y]) && forall j :: 0 <= j < RegisterCount && j != Flag ==> r[j] == v[j]
  {
  }

  /** The words no case of the switches selects: 0nnn other than 00E0 and 00EE, 8xyN with N not
      one of 0-7 and E, ExKK other than Ex9E and ExA1, and Fxkk with an unlisted kk. */
  predicate Unassigned(op: Word)
  {
    var t, kk, n := FieldT(op), op % 0x100, FieldN(op);
    (t == 0x0 && kk != 0xE0 && kk != 0xEE) ||
    (t == 0x8 && 0x8 <= n && n != 0xE) ||
    (t == 0xE && kk != 0x9E && kk != 0xA1) ||
    (t == 0xF && kk !in {0x07, 0x0A, 0x15, 0x18, 0x1E, 0x29, 0x33, 0x55, 0x65})
  }

  /** A word decodes to no operation exactly when it is unassigned. */
  lemma NopIffUnassigned(op: Word)
    ensures Decode(op) == Nop <==> Unassigned(op)
  {
    assert op % 0x100 == FieldY(op) * 0x10 + FieldN(op);
    NopIffUnselected(FieldT(op), FieldX(op), FieldY(op), FieldN(op), op % 0x100);
  }

  /** The nibble form of NopIffUnassigned, with kk the low byte. */
  lemma NopIffUnselected(t: Nibble, x: Nibble, y: Nibble, n: Nibble, kk: int)
    requires kk == (y as int) * 0x10 + n
    ensures DecodeNibbles(t, x, y, n) == Nop <==>
      (t == 0x0 && kk != 0xE0 && kk != 0xEE) ||
      (t == 0x8 && 0x8 <= n && n != 0xE) ||
      (t == 0xE && kk != 0x9E && kk != 0xA1) ||
      (t == 0xF && kk !in {0x07, 0x0A, 0x15, 0x18, 0x1E, 0x29, 0x33, 0x55, 0x65})
  {
    var i := DecodeNibbles(t, x, y, n);
    if t == 0x0 {
      assert i == DecodeSystem(kk);
    } else if t == 0x8 {
      assert i == DecodeArithmetic(x, y, n);
    } else if t == 0xE {
      assert i == DecodeKeySkip(x, kk);
    } else if t == 0xF {
      assert i == DecodeMisc(x, kk);
    }
  }

  /** An unassigned word only advances pc. */
  lemma UnassignedOnlyAdvances(s: State, op: Word, rnd: Byte)
    requires WellFormed(s) && Unassigned(op)
    ensures Decode(op) == Nop && Execute(s, Nop, rnd) == s.(pc := ToWord((s.pc as int) + 2))
  {
    NopIffUnassigned(op);
  }

  /** Operations that set pc from an operand or the stack rather than stepping it. */
  predicate Transfers(i: Instr)
  {
    i.Ret? || i.Jp? || i.Call? || i.JpV0?
  }

  /** Every operation that neither transfers control nor skips moves pc to the next word, unless
      Fx0A is still waiting. */
  lemma StepsToNext(s: State, i: Instr, rnd: Byte)
    requires WellFormed(s) && Defined(s, i) && !Transfers(i) && !IsSkip(i) && !Waits(s, i)
    ensures Execute(s, i, rnd).pc == ToWord((s.pc as int) + 2)
  {
  }

  /** A skip changes pc alone, to the word after the next or to the next one. */
  lemma SkipsOnlyMovePc(s: State, i: Instr, rnd: Byte)
    requires WellFormed(s) && Defined(s, i) && IsSkip(i)
    ensures var r := Execute(s, i, rnd);
      r == s.(pc := r.pc) && (r.pc == ToWord((s.pc as int) + 4) || r.pc == ToWord((s.pc as int) + 2))
  {
  }

  /** pc after a skip whose condition is `cond`: the word after the next exactly when it holds. */
  function Skipped(s: State, cond: bool): Word
  {
    ToWord((s.pc as int) + if cond then 4 else 2)
  }

  /** 3xkk skips exactly when Vx == kk, 4xkk exactly when Vx != kk; nothing but pc changes. */
  lemma ByteSkips(s: State, x: Nibble, kk: Byte, rnd: Byte)
    requires WellFormed(s)
    ensures Execute(s, SeByte(x, kk), rnd) == s.(pc := Skipped(s, s.registers[x] == kk))
    ensures Execute(s, SneByte(x, kk), rnd) == s.(pc := Skipped(s, s.registers[x] != kk))
  {
  }

  /** 5xy? skips exactly when Vx and Vy are equal; nothing but pc changes. */
  lemma RegistersEqualSkips(s: State, x: Nibble, y: Nibble, rnd: Byte)
    requires WellFormed(s)
    ensures Execute(s, SeReg(x, y), rnd) == s.(pc := Skipped(s, s.registers[x] == s.registers[y]))
  {
  }

  /** 9xy? skips exactly when Vx and Vy differ; nothing but pc changes. */
  lemma RegistersDifferSkips(s: State, x: Nibble, y: Nibble, rnd: Byte)
    requires WellFormed(s)
    ensures Execute(s, SneReg(x, y), rnd) == s.(pc := Skipped(s, s.registers[x] != s.registers[y]))
  {
  }

  /** Ex9E skips exactly when key Vx is pressed, ExA1 exactly when it is not; nothing but pc
      changes. */
  lemma KeySkips(s: State, x: Nibble, rnd: Byte)
    requires WellFormed(s) && s.registers[x] < KeyCount
    ensures Execute(s, Skp(x), rnd) == s.(pc := Skipped(s, s.keypad[s.registers[x]]))
    ensures Execute(s, Sknp(x), rnd) == s.(pc := Skipped(s, !s.keypad[s.registers[x]]))
  {
  }

  /** The jumps land on their target: nnn, or nnn + V0 for Bnnn; 2nnn also pushes pc. */
  lemma JumpsLand(s: State, i: Instr, rnd: Byte)
    requires WellFormed(s) && Defined(s, i) && (i.Jp? || i.Call? || i.JpV0?)
    ensures var r := Execute(s, i, rnd);
      r.pc == (if i.JpV0? then (i.nnn as int) + s.registers[0] else i.nnn) &&
      (i.Call? ==> r.sp == s.sp + 1 && r.stack[s.sp] == s.pc) &&
      (!i.Call? ==> r == s.(pc := r.pc))
  {
  }

  /** 00EE pops the return address and resumes at the word after it. */
  lemma Returns(s: State, rnd: Byte)
    requires WellFormed(s) && s.sp > 0
    ensures Execute(s, Ret, rnd) ==
      s.(sp := s.sp - 1, pc := ToWord((s.stack[s.sp - 1] as int) + 2))
  {
  }

  /** 2nnn followed by 00EE resumes at the word after the call with the stack pointer restored;
      the stack keeps the return address in the slot just popped. */
  lemma CallThenReturn(s: State, nnn: Address, rnd: Byte, rnd': Byte)
    requires WellFormed(s) && s.sp < StackSize
    ensures Defined(Execute(s, Call(nnn), rnd), Ret)
    ensures Execute(Execute(s, Call(nnn), rnd), Ret, rnd') ==
      s.(pc := ToWord((s.pc as int) + 2), stack := s.stack[s.sp := s.pc])
  {
  }

  /** 00E0 turns every pixel off and changes nothing but the screen and pc. */
  lemma ClearBlanks(s: State, rnd: Byte)
    requires WellFormed(s)
    ensures var r := Execute(s, Cls, rnd);
      (forall p :: 0 <= p < VideoSize ==> r.video[p] == Off) &&
      r == s.(video := r.video, pc := ToWord((s.pc as int) + 2))
  {
  }

  /** Dxyn toggles the pixel under every set sprite cell and no other pixel. */
  lemma DrawTogglesCells(s: State, x: Nibble, y: Nibble, n: Nibble, rnd: Byte, p: nat)
    requires WellFormed(s) && SpriteFits(s, n) && p < VideoSize
    ensures var r, sprite := Execute(s, Drw(x, y, n), rnd), SpriteAt(s, n);
      (r.video[p] == Toggle(s.video[p])) ==
        exists row, col :: 0 <= row < n && 0 <= col < 8 && SpriteBit(sprite[row], col) &&
          ScreenIndex(s.registers[x], s.registers[y], row, col) == p
    ensures var r := Execute(s, Drw(x, y, n), rnd); r.video[p] == s.video[p] || r.video[p] == Toggle(s.video[p])
  {
    var sprite, xPos, yPos := SpriteAt(s, n), s.registers[x], s.registers[y];
    var r := Execute(s, Drw(x, y, n), rnd);
    assert r.video == Blit(s.video, sprite, xPos, yPos);
    if exists row, col :: 0 <= row < n && 0 <= col < 8 && SpriteBit(sprite[row], col) &&
        ScreenIndex(xPos, yPos, row, col) == p
    {
      var row, col :| 0 <= row < n && 0 <= col < 8 && SpriteBit(sprite[row], col) &&
        ScreenIndex(xPos, yPos, row, col) == p;
      BlitAt(s.video, sprite, xPos, yPos, row, col);
    } else {
      BlitElsewhere(s.video, sprite, xPos, yPos, p);
      assert Toggle(s.video[p]) != s.video[p];
    }
  }

  /** After Dxyn, VF is 1 if some set sprite cell landed on a pixel that was on, else 0. */
  lemma DrawFlagsCollision(s: State, x: Nibble, y: Nibble, n: Nibble, rnd: Byte)
    requires WellFormed(s) && SpriteFits(s, n)
    ensures var r, sprite := Execute(s, Drw(x, y, n), rnd), SpriteAt(s, n);
      (r.registers[Flag] == 1 <==>
        exists row, col :: 0 <= row < n && 0 <= col < 8 && SpriteBit(sprite[row], col) &&
          s.video[ScreenIndex(s.registers[x], s.registers[y], row, col)] == On) &&
      r.registers[Flag] <= 1 &&
      (forall j :: 0 <= j < Flag ==> r.registers[j] == s.registers[j]) &&
      r == s.(registers := r.registers, video := r.video, pc := ToWord((s.pc as int) + 2))
  {
    CollisionIff(s.video, SpriteAt(s, n), s.registers[x], s.registers[y]);
  }

  /** A screen of off and on pixels stays so under Dxyn. */
  lemma DrawKeepsBinary(s: State, x: Nibble, y: Nibble, n: Nibble, rnd: Byte)
    requires WellFormed(s) && SpriteFits(s, n) && Binary(s.video)
    ensures Binary(Execute(s, Drw(x, y, n), rnd).video)
  {
    BlitKeepsBinary(s.video, SpriteAt(s, n), s.registers[x], s.registers[y]);
  }

  /** Drawing the same sprite twice restores the screen, when neither coordinate is held in VF
      (which the first draw overwrites). */
  lemma DrawTwiceRestores(s: State, x: Nibble, y: Nibble, n: Nibble, rnd: Byte, rnd': Byte)
    requires WellFormed(s) && SpriteFits(s, n) && x != Flag && y != Flag
    ensures Defined(Execute(s, Drw(x, y, n), rnd), Drw(x, y, n))
    ensures Execute(Execute(s, Drw(x, y, n), rnd), Drw(x, y, n), rnd').video == s.video
  {
    BlitTwice(s.video, SpriteAt(s, n), s.registers[x], s.registers[y]);
  }

  /** Drawing the same sprite a second time sets VF exactly when the first draw turned some pixel
      on. */
  lemma SecondDrawCollides(s: State, x: Nibble, y: Nibble, n: Nibble, rnd: Byte, rnd': Byte)
    requires WellFormed(s) && SpriteFits(s, n) && x != Flag && y != Flag
    ensures Defined(Execute(s, Drw(x, y, n), rnd), Drw(x, y, n))
    ensures var sprite := SpriteAt(s, n);
      Execute(Execute(s, Drw(x, y, n), rnd), Drw(x, y, n), rnd').registers[Flag] == 1 <==>
        exists row, col :: 0 <= row < n && 0 <= col < 8 && SpriteBit(sprite[row], col) &&
          s.video[ScreenIndex(s.registers[x], s.registers[y], row, col)] == Off
  {
    var sprite, xPos, yPos := SpriteAt(s, n), s.registers[x], s.registers[y];
    var once := Blit(s.video, sprite, xPos, yPos);
    var t := Execute(s, Drw(x, y, n), rnd);
    assert t == Advance(Draw(s, x, y, n));
    assert t.registers[x] == xPos && t.registers[y] == yPos && t.video == once;
    assert SpriteAt(t, n) == sprite;
    var r := Execute(t, Drw(x, y, n), rnd');
    assert r == Advance(Draw(t, x, y, n));
    assert r.registers[Flag] == 1 <==> Collision(once, sprite, xPos, yPos);
    CollisionIff(once, sprite, xPos, yPos);
    forall row, col | 0 <= row < n && 0 <= col < 8 && SpriteBit(sprite[row], col)
      ensures once[ScreenIndex(xPos, yPos, row, col)] == On <==> s.video[ScreenIndex(xPos, yPos, row, col)] == Off
    {
      BlitAt(s.video, sprite, xPos, yPos, row, col);
    }
  }

  /** Fx33: three decimal digits at I, I + 1, I + 2 that spell Vx; nothing else in memory
      changes, and nothing else at all but pc. */
  lemma BcdSpellsValue(s: State, x: Nibble, rnd: Byte)
    requires WellFormed(s) && s.index + 2 < MemorySize
    ensures var r := Execute(s, Misc(x, Bcd), rnd); var m := r.memory;
      var a, b, c := m[s.index], m[s.index + 1], m[s.index + 2];
      a <= 2 && b <= 9 && c <= 9 && a * 100 + b * 10 + c == s.registers[x] &&
      (forall k :: 0 <= k < MemorySize && !(s.index <= k <= s.index + 2) ==> m[k] == s.memory[k]) &&
      r == s.(memory := m, pc := ToWord((s.pc as int) + 2))
  {
  }

  /** Fx55 writes V0..Vx to I..I + x and no other memory cell. */
  lemma StoreWritesRegisters(s: State, x: Nibble, rnd: Byte)
    requires WellFormed(s) && s.index + x < MemorySize
    ensures var r := Execute(s, Misc(x, Store), rnd);
      (forall k :: 0 <= k <= x ==> r.memory[s.index + k] == s.registers[k]) &&
      (forall a :: 0 <= a < MemorySize && !(s.index <= a <= s.index + x) ==> r.memory[a] == s.memory[a]) &&
      r == s.(memory := r.memory, pc := ToWord((s.pc as int) + 2))
  {
  }

  /** Fx65 reads V0..Vx from I..I + x and leaves the higher registers alone. */
  lemma LoadReadsRegisters(s: State, x: Nibble, rnd: Byte)
    requires WellFormed(s) && s.index + x < MemorySize
    ensures var r := Execute(s, Misc(x, Load), rnd);
      (forall k :: 0 <= k <= x ==> r.registers[k] == s.memory[s.index + k]) &&
      (forall k :: x < k < RegisterCount ==> r.registers[k] == s.registers[k]) &&
      r == s.(registers := r.registers, pc := ToWord((s.pc as int) + 2))
  {
  }

  /** Fx55 then Fx65 with the same x and I gives back the registers that were stored. */
  lemma StoreThenLoad(s: State, x: Nibble, rnd: Byte, rnd': Byte)
    requires WellFormed(s) && s.index + x < MemorySize
    ensures Defined(Execute(s, Misc(x, Store), rnd), Misc(x, Load))
    ensures Execute(Execute(s, Misc(x, Store), rnd), Misc(x, Load), rnd').registers == s.registers
  {
    var t := Execute(s, Misc(x, Store), rnd);
    var r := Execute(t, Misc(x, Load), rnd');
    assert forall k :: 0 <= k < RegisterCount ==> r.registers[k] == s.registers[k];
  }

  /** Cxkk: the new Vx has no bit that kk lacks, and each bit kk has comes from the random byte. */
  lemma RandomMasked(s: State, x: Nibble, kk: Byte, rnd: Byte, i: nat)
    requires WellFormed(s)
    ensures var r := Execute(s, Rnd(x, kk), rnd); var v := r.registers[x];
      (Bit(v, i) <==> Bit(rnd, i) && Bit(kk, i) && i < 8) &&
      r == s.(registers := s.registers[x := v], pc := ToWord((s.pc as int) + 2))
  {
    if i < 8 {
      BitwiseBit(And, rnd, kk, 8, i);
    } else {
      BitwiseHigh(And, rnd, kk, 8, i);
    }
  }

  /** Fx29 sets I to 0x50 + 5 * Vx for every byte Vx and changes nothing else but pc; for a digit
      Vx < 16, while the glyph table is in place, the five bytes there are that digit's glyph. */
  lemma GlyphAddress(s: State, x: Nibble, rnd: Byte)
    requires WellFormed(s)
    ensures Execute(s, Misc(x, Glyph), rnd) ==
      s.(index := FontsetStartAddress + (s.registers[x] as int) * GlyphSize, pc := ToWord((s.pc as int) + 2))
    ensures s.registers[x] < 0x10 && s.memory[FontsetStartAddress .. FontsetStartAddress + |Fontset|] == Fontset ==>
      var r := Execute(s, Misc(x, Glyph), rnd);
      r.index + GlyphSize <= MemorySize &&
      r.memory[r.index .. r.index + GlyphSize] ==
        Fontset[s.registers[x] * GlyphSize .. (s.registers[x] + 1) * GlyphSize]
  {
    var r := Execute(s, Misc(x, Glyph), rnd);
    var d: int := s.registers[x];
    assert r == ExecuteMisc(s, x, Glyph);
    assert r.memory == s.memory && r.index == FontsetStartAddress + d * GlyphSize;
    if d < 0x10 && s.memory[FontsetStartAddress .. FontsetStartAddress + |Fontset|] == Fontset {
      SliceOfSlice(s.memory, FontsetStartAddress, Fontset, d * GlyphSize, GlyphSize);
    }
  }

  /** A window of a copied block is the same window of the block. */
  lemma SliceOfSlice<T>(m: seq<T>, at: nat, block: seq<T>, k: nat, len: nat)
    requires at + |block| <= |m| && m[at .. at + |block|] == block && k + len <= |block|
    ensures m[at + k .. at + k + len] == block[k .. k + len]
  {
    var window, part := m[at + k .. at + k + len], block[k .. k + len];
    forall j | 0 <= j < len
      ensures window[j] == part[j]
    {
      assert m[at .. at + |block|][k + j] == block[k + j];
    }
  }

  /** Fx07 copies the delay timer into Vx and changes nothing else but pc. */
  lemma DelayRead(s: State, x: Nibble, rnd: Byte)
    requires WellFormed(s)
    ensures Execute(s, Misc(x, GetDelay), rnd) ==
      s.(registers := s.registers[x := s.delayTimer], pc := ToWord((s.pc as int) + 2))
  {
  }

  /** Fx15 and Fx18 copy Vx into a timer and change nothing else but pc. */
  lemma TimersSet(s: State, x: Nibble, rnd: Byte)
    requires WellFormed(s)
    ensures Execute(s, Misc(x, SetDelay), rnd) ==
      s.(delayTimer := s.registers[x], pc := ToWord((s.pc as int) + 2))
    ensures Execute(s, Misc(x, SetSound), rnd) ==
      s.(soundTimer := s.registers[x], pc := ToWord((s.pc as int) + 2))
  {
  }

  /** Fx1E adds Vx to I modulo 2^16, sets no flag and changes nothing else but pc. */
  lemma IndexAdds(s: State, x: Nibble, rnd: Byte)
    requires WellFormed(s)
    ensures Execute(s, Misc(x, AddIndex), rnd) ==
      s.(index := ((s.index as int) + s.registers[x]) % 0x1_0000, pc := ToWord((s.pc as int) + 2))
  {
  }

  /** 6xkk sets Vx to kk and changes nothing else but pc. */
  lemma LoadsByte(s: State, x: Nibble, kk: Byte, rnd: Byte)
    requires WellFormed(s)
    ensures Execute(s, LdByte(x, kk), rnd) ==
      s.(registers := s.registers[x := kk], pc := ToWord((s.pc as int) + 2))
  {
  }

  /** Annn sets I to nnn and changes nothing else but pc. */
  lemma LoadsIndex(s: State, nnn: Address, rnd: Byte)
    requires WellFormed(s)
    ensures Execute(s, LdI(nnn), rnd) == s.(index := nnn, pc := ToWord((s.pc as int) + 2))
  {
  }

  /** 8xyN hands Arithmetic the x and y it decoded, keeps I and every field other than the
      registers, and moves pc to the next word; the lemmas on Arithmetic give the registers. */
  lemma AluSteps(s: State, x: Nibble, y: Nibble, op: AluOp, rnd: Byte)
    requires WellFormed(s)
    ensures Execute(s, Alu(x, y, op), rnd) ==
      s.(registers := Arithmetic(s.registers, x, y, op), pc := ToWord((s.pc as int) + 2))
  {
  }

  /** 7xkk adds kk to Vx modulo 256, for every x including F, and changes nothing else but pc;
      unlike 8xy4 it sets no carry, so VF keeps its value when x is not F. */
  lemma AddByteKeepsFlag(s: State, x: Nibble, kk: Byte, rnd: Byte)
    requires WellFormed(s)
    ensures var r := Execute(s, AddByte(x, kk), rnd);
      ((r.registers[x] as int) - s.registers[x] - kk) % 0x100 == 0 &&
      r == s.(registers := s.registers[x := ToByte((s.registers[x] as int) + kk)], pc := ToWord((s.pc as int) + 2))
    ensures x != Flag ==> Execute(s, AddByte(x, kk), rnd).registers[Flag] == s.registers[Flag]
  {
  }

  /** The operation the cycle from s executes. */
  function Current(s: State): Instr
    requires WellFormed(s) && s.pc + 1 < MemorySize
  {
    Decode(Fetch(s))
  }

  /** The cycle keeps the word it fetched, the byte at pc being its high half. */
  lemma CycleFetches(s: State, rnd: Byte)
    requires Runnable(s)
    ensures Cycle(s, rnd).opcode == (s.memory[s.pc] as int) * 0x100 + s.memory[s.pc + 1]
  {
  }

  /** Fx0A with no key pressed: the cycle records the word and changes nothing else, so the next
      cycle finds the same word and waits again. */
  lemma WaitingRepeats(s: State, rnd: Byte, rnd': Byte)
    requires Runnable(s) && Waits(s, Current(s))
    ensures Cycle(s, rnd) == s.(opcode := Fetch(s))
    ensures Runnable(Cycle(s, rnd)) && Cycle(Cycle(s, rnd), rnd') == Cycle(s, rnd)
  {
    var t := s.(opcode := Fetch(s));
    WaitingCycle(s, rnd);
    assert Fetch(t) == Fetch(s);
    OpcodeIrrelevant(s, Current(s), Fetch(s));
    WaitingCycle(t, rnd');
    assert t.(opcode := Fetch(t)) == t;
  }

  /** Whether an operation is defined, and whether Fx0A waits, do not depend on `opcode`. */
  lemma OpcodeIrrelevant(s: State, i: Instr, w: Word)
    requires WellFormed(s)
    ensures Defined(s.(opcode := w), i) == Defined(s, i) && Waits(s.(opcode := w), i) == Waits(s, i)
  {
  }

  lemma WaitingCycle(s: State, rnd: Byte)
    requires Runnable(s) && Waits(s, Current(s))
    ensures Cycle(s, rnd) == s.(opcode := Fetch(s))
  {
  }

  /** Fx0A with some key pressed: Vx becomes the highest-numbered pressed key, pc moves on, the
      timers tick and nothing else changes but `opcode`. */
  lemma KeyEndsWait(s: State, x: Nibble, rnd: Byte)
    requires Runnable(s) && Current(s) == Misc(x, WaitKey) && exists k :: 0 <= k < KeyCount && s.keypad[k]
    ensures var r := Cycle(s, rnd); var key := r.registers[x];
      key < KeyCount && s.keypad[key] && (forall j :: key < j < KeyCount ==> !s.keypad[j]) &&
      r.pc == ToWord((s.pc as int) + 2) &&
      r == Tick(s.(opcode := Fetch(s), registers := s.registers[x := key], pc := r.pc))
  {
    var k :| 0 <= k < KeyCount && s.keypad[k];
    assert HighestKey(s.keypad, KeyCount) >= 0;
  }

  /** Both timers count down by one, stopping at zero, on every completed cycle; Fx15 and Fx18
      count down from the value they have just set. */
  lemma TimersTick(s: State, rnd: Byte)
    requires Runnable(s) && !Waits(s, Current(s))
    ensures var i, r := Current(s), Cycle(s, rnd);
      var d := if i.Misc? && i.mop == SetDelay then s.registers[i.x] else s.delayTimer;
      var t := if i.Misc? && i.mop == SetSound then s.registers[i.x] else s.soundTimer;
      r.delayTimer == (if d > 0 then d - 1 else 0) && r.soundTimer == (if t > 0 then t - 1 else 0)
  {
  }
}
