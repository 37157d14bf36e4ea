/*
 * The operand stack and the integer helpers of the toy JVM
 * (JavaVirtualMachine/jvm.c): the bounded stack of signed 32-bit words,
 * bin_op, check_jump, and the operand-decoding conventions of execute
 * (iconst_<i>, bipush, sipush, the branch offset and the order in which
 * branch operands are popped).  Opcodes are those of section 6.5 of the
 * Java Virtual Machine Specification (Java SE 12), JVMS below.
 */
module Jvm {

  const INT_MIN: int := -0x8000_0000
  const INT_MAX: int := 0x7fff_ffff

  /** s4: a signed 32-bit word */
  type Int32 = x: int | INT_MIN <= x <= INT_MAX
  /** u1: one byte of the code array */
  type Byte = x: int | 0 <= x < 0x100
  /** u2: the program counter and the stack bounds */
  type U2 = x: int | 0 <= x < 0x1_0000

  // Opcodes, section 6.5 of the JVM Specification.
  const ICONST_M1: Byte := 0x02
  const ICONST_0: Byte := 0x03
  const ICONST_5: Byte := 0x08
  const BIPUSH: Byte := 0x10
  const SIPUSH: Byte := 0x11
  const IADD: Byte := 0x60
  const ISUB: Byte := 0x64
  const IMUL: Byte := 0x68
  const IDIV: Byte := 0x6c
  const IREM: Byte := 0x70
  const IFEQ: Byte := 0x99
  const IFNE: Byte := 0x9a
  const IFLT: Byte := 0x9b
  const IFGE: Byte := 0x9c
  const IFGT: Byte := 0x9d
  const IFLE: Byte := 0x9e
  const IF_ICMPEQ: Byte := 0x9f
  const IF_ICMPNE: Byte := 0xa0
  const IF_ICMPLT: Byte := 0xa1
  const IF_ICMPGE: Byte := 0xa2
  const IF_ICMPGT: Byte := 0xa3
  const IF_ICMPLE: Byte := 0xa4
  const IF_ACMPEQ: Byte := 0xa5
  const IF_ACMPNE: Byte := 0xa6
  const GOTO: Byte := 0xa7

  //// THE OPERAND STACK ////

  /** stack_t: a bounded stack of s4 words; `size` words of `data` are in use. */
  class OperandStack {
    const maxLength: U2
    var size: U2
    const data: array<Int32>

    ghost predicate Valid()
      reads this
    {
      data.Length == maxLength && size <= maxLength
    }

    /** The words on the stack, bottom first. */
    ghost function Contents(): seq<Int32>
      reads this, data
      requires Valid()
    {
      data[..size]
    }

    /** stack_create */
    constructor (maxLength: U2)
      ensures Valid() && fresh(data)
      ensures this.maxLength == maxLength && Contents() == []
    {
      this.maxLength := maxLength;
      size := 0;
      data := new Int32[maxLength];
    }

    /** stack_push: writes val at index size, then counts it. */
    method Push(val: Int32)
      requires Valid() && size != maxLength
      modifies this, data
      ensures Valid() && size == old(size) + 1
      ensures data[old(size)] == val
      ensures forall j :: 0 <= j < data.Length && j != old(size) ==> data[j] == old(data[j])
      ensures Contents() == old(Contents()) + [val]
    {
      data[size] := val;
      size := size + 1;
    }

    /** stack_pop: returns the word at index size - 1 and uncounts it. */
    method Pop() returns (val: Int32)
      requires Valid() && size != 0
      modifies this
      ensures Valid() && size == old(size) - 1
      ensures val == old(Contents())[old(size) - 1]
      ensures Contents() == old(Contents())[..old(size) - 1]
      ensures data[..] == old(data[..])
    {
      val := data[size - 1];
      size := size - 1;
    }
  }

  /** A push followed by a pop hands back the pushed word and leaves the stack as it was. */
  method PushThenPop(s: OperandStack, val: Int32) returns (popped: Int32)
    requires s.Valid() && s.size != s.maxLength
    modifies s, s.data
    ensures s.Valid() && popped == val
    ensures s.size == old(s.size) && s.Contents() == old(s.Contents())
  {
    s.Push(val);
    popped := s.Pop();
  }

  //// 32-BIT ARITHMETIC ////

  function Abs(x: int): nat
  {
    if x < 0 then -x else x
  }

  /** Reduction of an integer to a signed 32-bit word (two's complement). */
  function Wrap32(x: int): (r: Int32)
    ensures (r - x) % 0x1_0000_0000 == 0
    ensures INT_MIN <= x <= INT_MAX ==> r == x
  {
    (x - INT_MIN) % 0x1_0000_0000 + INT_MIN
  }

  /** C's `/` on int: the quotient rounded toward zero. */
  function TruncDiv(a: int, b: int): int
    requires b != 0
  {
    if (a < 0) == (b < 0) then Abs(a) / Abs(b) else -(Abs(a) / Abs(b))
  }

  /** C's `%` on int: what is left after the truncated quotient, so that (a/b)*b + a%b == a. */
  function TruncRem(a: int, b: int): int
    requires b != 0
  {
    a - b * TruncDiv(a, b)
  }

  /** |x * y| == |x| * |y| */
  lemma AbsOfProduct(x: int, y: int)
    ensures Abs(x * y) == Abs(x) * Abs(y)
  {
    if x < 0 && y < 0 {
      assert x * y == (-x) * (-y);
    } else if x < 0 {
      assert x * y == -((-x) * y);
    } else if y < 0 {
      assert x * y == -(x * (-y));
    }
  }

  /** The divisor times the truncated quotient is the dividend's magnitude, rounded down to a multiple of |b|, with the dividend's sign. */
  lemma DivisorTimesTruncDiv(a: int, b: int)
    requires b != 0
    ensures var p := Abs(b) * (Abs(a) / Abs(b));
      b * TruncDiv(a, b) == if a >= 0 then p else -p
  {
    var A: int, B: int := Abs(a), Abs(b);
    var q: int := A / B;
    var t := TruncDiv(a, b);
    if b > 0 {
      assert b == B;
      if a < 0 {
        assert t == -q;
        assert B * -q == -(B * q);
      }
    } else {
      assert b == -B;
      if a >= 0 {
        assert t == -q;
        assert -B * -q == B * q;
      } else {
        assert t == q;
        assert -B * q == -(B * q);
      }
    }
  }

  /** Dafny's `/` and `%` on a non-negative dividend and a positive divisor. */
  lemma DivModNat(A: nat, B: nat)
    requires B > 0
    ensures A == B * (A / B) + A % B && 0 <= A % B < B
    ensures 0 <= A / B && A / B <= B * (A / B) <= A
  {
    var q := A / B;
    if q > 0 {
      MulAtLeast(q, B);
    }
  }

  /**
   * The truncated quotient leaves a remainder smaller than the divisor that
   * carries the sign of the dividend: the rule C and the JVM (idiv, irem)
   * share, unlike Dafny's Euclidean `/` and `%`.
   */
  lemma TruncDivRemainder(a: int, b: int)
    requires b != 0
    ensures a == b * TruncDiv(a, b) + TruncRem(a, b)
    ensures Abs(TruncRem(a, b)) < Abs(b)
    ensures TruncRem(a, b) == 0 || (TruncRem(a, b) < 0 <==> a < 0)
    ensures Abs(b * TruncDiv(a, b)) <= Abs(a)
  {
    var A: int, B: int := Abs(a), Abs(b);
    DivModNat(A, B);
    DivisorTimesTruncDiv(a, b);
    var m := A % B;
    assert TruncRem(a, b) == if a >= 0 then m else -m;
  }

  /** Only INT_MIN / -1 leaves the 32-bit range: every other quotient and remainder of two words is a word. */
  lemma TruncDivFits(a: Int32, b: Int32)
    requires b != 0 && !(a == INT_MIN && b == -1)
    ensures INT_MIN <= TruncDiv(a, b) <= INT_MAX
    ensures INT_MIN <= TruncRem(a, b) <= INT_MAX
  {
    var A: int, B: int := Abs(a), Abs(b);
    DivModNat(A, B);
    var q := A / B;
    if q == 0x8000_0000 {
      assert B * 0x8000_0000 <= 0x8000_0000;
      assert B == 1 && A == 0x8000_0000;
    }
    TruncDivRemainder(a, b);
  }

  /** The remainder rule fixes the quotient: any q with that remainder is the truncated one. */
  lemma TruncDivUnique(a: int, b: int, q: int)
    requires b != 0
    requires Abs(a - b * q) < Abs(b)
    requires a - b * q == 0 || (a - b * q < 0 <==> a < 0)
    ensures q == TruncDiv(a, b)
  {
    var t := TruncDiv(a, b);
    TruncDivRemainder(a, b);
    var r, s := a - b * q, TruncRem(a, b);
    // r and s have the same sign (or vanish) and are both below |b|.
    assert Abs(r - s) < Abs(b);
    if q != t {
      var d := t - q;
      ProductOfDifference(b, t, q);
      assert r - s == b * d;
      AbsOfProduct(b, d);
      MulAtLeast(Abs(b), Abs(d));
      assert false;
    }
  }

  lemma ProductOfDifference(b: int, t: int, q: int)
    ensures b * t - b * q == b * (t - q)
  {
  }

  lemma MulAtLeast(x: nat, y: nat)
    requires y >= 1
    ensures x * y >= x
  {
    assert x * y == x * (y - 1) + x;
  }

  /**
   * Dafny's Euclidean division and the truncated division differ on a
   * negative dividend: -7 / 2 is -4 in Dafny but -3 in C and in the JVM.
   */
  lemma TruncDivDiffersFromEuclid()
    ensures TruncDiv(-7, 2) == -3 && -7 / 2 == -4
    ensures TruncRem(-7, 2) == -1 && -7 % 2 == 1
  {
  }

  //// bin_op ////

  /** The five int arithmetic instructions among iadd..irem; the rest of that range are long, float and double forms. */
  predicate IntArith(op: Byte)
  {
    op == IADD || op == ISUB || op == IMUL || op == IDIV || op == IREM
  }

  /**
   * The JVM's int arithmetic as JVMS §6.5 states it for iadd, isub, imul,
   * idiv and irem, over value1 (the deeper operand) and value2 (the top of
   * the stack).
   */
  function JvmsArith(op: Byte, value1: Int32, value2: Int32): Int32
    requires IntArith(op)
    requires (op == IDIV || op == IREM) ==> value2 != 0 && !(value1 == INT_MIN && value2 == -1)
  {
    if op == IADD then Wrap32(value1 + value2)
    else if op == ISUB then Wrap32(value1 - value2)
    else if op == IMUL then Wrap32(value1 * value2)
    else if op == IDIV then
      TruncDivFits(value1, value2);
      TruncDiv(value1, value2)
    else
      TruncDivFits(value1, value2);
      TruncRem(value1, value2)
  }

  /**
   * bin_op(instruct, val1, val2), where val1 is the first word popped (the
   * top) and val2 the second.  Signed overflow is undefined in C; it is
   * modelled as the JVM's two's-complement wrap.  Division and remainder by
   * zero, and INT_MIN / -1, trap in C and are excluded. Every other opcode,
   * including the long, float and double forms that execute also sends
   * here, gives 0.
   */
  function BinOp(op: Byte, val1: Int32, val2: Int32): (r: Int32)
    requires (op == IDIV || op == IREM) ==> val1 != 0 && !(val2 == INT_MIN && val1 == -1)
    ensures IntArith(op) ==> r == JvmsArith(op, val2, val1)
    ensures !IntArith(op) ==> r == 0
    ensures op == IDIV ==> Abs(val1 * r) <= Abs(val2)
    ensures op == IREM ==> Abs(r) < Abs(val1) && (r == 0 || (r < 0 <==> val2 < 0))
  {
    if op == IADD then Wrap32(val1 + val2)
    else if op == ISUB then Wrap32(val2 - val1)
    else if op == IMUL then Wrap32(val2 * val1)
    else if op == IDIV then
      TruncDivFits(val2, val1);
      TruncDivRemainder(val2, val1);
      TruncDiv(val2, val1)
    else if op == IREM then
      TruncDivFits(val2, val1);
      TruncDivRemainder(val2, val1);
      TruncRem(val2, val1)
    else 0
  }

  /**
   * The iadd..irem case of execute: pop val1, pop val2, push
   * bin_op(instruct, val1, val2).  The word pushed is the JVM's
   * value1 OP value2 with value1 the deeper operand for the five int
   * instructions, and 0 for the others in iadd..irem.
   */
  method ArithStep(s: OperandStack, op: Byte)
    requires s.Valid() && s.size >= 2 && IADD <= op <= IREM
    requires (op == IDIV || op == IREM) ==>
      s.data[s.size - 1] != 0 && !(s.data[s.size - 2] == INT_MIN && s.data[s.size - 1] == -1)
    modifies s, s.data
    ensures s.Valid()
    ensures var n := |old(s.Contents())|;
      s.Contents() == old(s.Contents())[..n - 2]
        + [if IntArith(op) then JvmsArith(op, old(s.Contents())[n - 2], old(s.Contents())[n - 1]) else 0]
  {
    var val1 := s.Pop();
    var val2 := s.Pop();
    s.Push(BinOp(op, val1, val2));
  }

  //// check_jump and the branch operands ////

  datatype Condition = Eq | Ne | Lt | Ge | Gt | Le

  /** The JVM groups its six comparisons in the same order for if<cond> and if_icmp<cond>. */
  function ConditionOf(op: Byte): Condition
    requires IFEQ <= op <= IF_ICMPLE
  {
    [Eq, Ne, Lt, Ge, Gt, Le][(op - IFEQ) % 6]
  }

  function Holds(c: Condition, a: int, b: int): bool
  {
    match c
    case Eq => a == b
    case Ne => a != b
    case Lt => a < b
    case Ge => a >= b
    case Gt => a > b
    case Le => a <= b
  }

  /** check_jump: goto always jumps; the twelve conditional branches compare a with b. */
  function CheckJump(op: Byte, a: Int32, b: Int32): (jump: bool)
    ensures op == GOTO ==> jump
    ensures IFEQ <= op <= IF_ICMPLE ==> jump == Holds(ConditionOf(op), a, b)
    ensures !(IFEQ <= op <= IF_ICMPLE || op == GOTO) ==> !jump
  {
    if op == IFEQ || op == IF_ICMPEQ then a == b
    else if op == IFNE || op == IF_ICMPNE then a != b
    else if op == IFLT || op == IF_ICMPLT then a < b
    else if op == IFGE || op == IF_ICMPGE then a >= b
    else if op == IFGT || op == IF_ICMPGT then a > b
    else if op == IFLE || op == IF_ICMPLE then a <= b
    else op == GOTO
  }

  /** The conditions come in complementary pairs: eq/ne, lt/ge, gt/le. */
  lemma CheckJumpComplements(op: Byte, a: Int32, b: Int32)
    requires IFEQ <= op <= IF_ICMPLE
    ensures var partner := if (op - IFEQ) % 2 == 0 then op + 1 else op - 1;
      IFEQ <= partner <= IF_ICMPLE && CheckJump(partner, a, b) == !CheckJump(op, a, b)
  {
  }

  /**
   * The number of words execute pops for a branch in ifeq..goto. For
   * if_acmpeq and if_acmpne, which lie between if_icmple and goto, it pops
   * one word, where JVMS §6.5 pops two references.
   */
  function BranchPops(op: Byte): nat
    requires IFEQ <= op <= GOTO
  {
    if op == GOTO then 0 else if IF_ICMPEQ <= op <= IF_ICMPLE then 2 else 1
  }

  /** The int comparisons and goto: the branches of ifeq..goto whose meaning execute shares with JVMS §6.5. */
  predicate IntBranch(op: Byte)
  {
    IFEQ <= op <= IF_ICMPLE || op == GOTO
  }

  /**
   * Where execute departs from JVMS §6.5: if_acmpeq and if_acmpne pop one
   * word, check_jump never takes them, and pc moves past the instruction.
   */
  lemma AcmpNeverBranches(a: Int32, b: Int32)
    ensures BranchPops(IF_ACMPEQ) == 1 && BranchPops(IF_ACMPNE) == 1
    ensures !CheckJump(IF_ACMPEQ, a, b) && !CheckJump(IF_ACMPNE, a, b)
    ensures !IntBranch(IF_ACMPEQ) && !IntBranch(IF_ACMPNE)
  {
  }

  /**
   * Whether the JVM takes the branch, as JVMS §6.5 states it over the
   * stack st (top last): if<cond> compares the top value with zero,
   * if_icmp<cond> compares value1 (the deeper word) with value2 (the top),
   * goto always branches.
   */
  function JvmsBranchTaken(op: Byte, st: seq<Int32>): bool
    requires IntBranch(op) && |st| >= BranchPops(op)
  {
    if op == GOTO then true
    else if IF_ICMPEQ <= op <= IF_ICMPLE then Holds(ConditionOf(op), st[|st| - 2], st[|st| - 1])
    else Holds(ConditionOf(op), st[|st| - 1], 0)
  }

  /** (b1 << 8) | b2 read as an s2. */
  function Signed16(b1: Byte, b2: Byte): (r: int)
    ensures -0x8000 <= r <= 0x7fff
    ensures (r - (b1 * 0x100 + b2)) % 0x1_0000 == 0
  {
    var u := b1 * 0x100 + b2;
    if u >= 0x8000 then u - 0x1_0000 else u
  }

  /** A byte read as an s1 (the bipush operand). */
  function Signed8(b: Byte): (r: int)
    ensures -0x80 <= r <= 0x7f && (r - b) % 0x100 == 0
  {
    if b >= 0x80 then b - 0x100 else b
  }

  function HighByte(v: int): Byte
    requires -0x8000 <= v <= 0x7fff
  {
    ((v + 0x1_0000) % 0x1_0000) / 0x100
  }

  function LowByte(v: int): Byte
    requires -0x8000 <= v <= 0x7fff
  {
    (v + 0x1_0000) % 0x100
  }

  /** Every s2 is the decoding of its two bytes, high byte first. */
  lemma Signed16OfBytes(v: int)
    requires -0x8000 <= v <= 0x7fff
    ensures Signed16(HighByte(v), LowByte(v)) == v
  {
    var u := (v + 0x1_0000) % 0x1_0000;
    assert u == if v < 0 then v + 0x1_0000 else v;
    assert HighByte(v) * 0x100 + LowByte(v) == u;
  }

  /** And every pair of bytes is the encoding of its decoding: the two are inverse. */
  lemma BytesOfSigned16(b1: Byte, b2: Byte)
    ensures HighByte(Signed16(b1, b2)) == b1 && LowByte(Signed16(b1, b2)) == b2
  {
    var u := b1 * 0x100 + b2;
    var v := Signed16(b1, b2);
    assert (v + 0x1_0000) % 0x1_0000 == u;
    assert (v + 0x1_0000) % 0x100 == u % 0x100;
  }

  /** The new pc after a branch: pc is a u2, so both updates wrap modulo 2^16. */
  function BranchTarget(pc: U2, taken: bool, b1: Byte, b2: Byte): (next: U2)
    ensures taken ==> (next - pc - Signed16(b1, b2)) % 0x1_0000 == 0
    ensures !taken ==> (next - pc - 3) % 0x1_0000 == 0
  {
    if taken then (pc + Signed16(b1, b2)) % 0x1_0000 else (pc + 3) % 0x1_0000
  }

  /**
   * The ifeq..goto case of execute: goto pops nothing; otherwise a is
   * popped; an if_icmp<cond> then moves it to b and pops a again; the
   * branch is taken when check_jump(instruct, a, b) holds, and then pc
   * moves by the signed 16-bit operand b1 b2, else past the three bytes.
   * if_acmpeq and if_acmpne pop one word and never branch.
   */
  method BranchStep(s: OperandStack, op: Byte, pc: U2, b1: Byte, b2: Byte) returns (next: U2)
    requires s.Valid() && IFEQ <= op <= GOTO && s.size >= BranchPops(op)
    modifies s
    ensures s.Valid()
    ensures var n := |old(s.Contents())|;
      s.Contents() == old(s.Contents())[..n - BranchPops(op)]
    ensures next == BranchTarget(pc, IntBranch(op) && JvmsBranchTaken(op, old(s.Contents())), b1, b2)
  {
    var a: Int32, b: Int32 := 0, 0;
    if op != GOTO {
      a := s.Pop();
    }
    if IF_ICMPEQ <= op <= IF_ICMPLE {
      b := a;
      a := s.Pop();
    }
    var taken := CheckJump(op, a, b);
    next := BranchTarget(pc, taken, b1, b2);
  }

  //// iconst_<i> ////

  /** iconst_m1..iconst_5 push instruct - 3: the constant named by the opcode. */
  function IconstValue(op: Byte): (v: Int32)
    requires ICONST_M1 <= op <= ICONST_5
    ensures -1 <= v <= 5 && op == ICONST_0 + v
  {
    op - 3
  }

  /** The table of JVMS §6.5: iconst_m1 is 0x02, iconst_0 is 0x03, ..., iconst_5 is 0x08. */
  lemma IconstTable()
    ensures IconstValue(0x02) == -1 && IconstValue(0x03) == 0 && IconstValue(0x04) == 1
    ensures IconstValue(0x05) == 2 && IconstValue(0x06) == 3 && IconstValue(0x07) == 4
    ensures IconstValue(0x08) == 5
  {
  }
}
