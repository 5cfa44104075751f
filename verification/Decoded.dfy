/**
  The decoded-instruction model the dataflow, taint and stack-string services run over
  (src/idamesh/domain/entities/decoded_instruction.py).
*/
module Decoded {
  import opened Common

  // A register family; the aliases of one physical register share it.
  datatype Family =
    | RAX | RBX | RCX | RDX | RSI | RDI | RBP | RSP
    | R8 | R9 | R10 | R11 | R12 | R13 | R14 | R15
    | OtherFamily(name: string)

  datatype Width = Qword | Dword | Word | LowByte | HighByte

  /** One register alias, such as `esp` = Register(RSP, Dword). */
  datatype Register = Register(family: Family, width: Width)

  datatype Kind = RegKind | ImmKind | MemKind | PhraseKind

  datatype Operand = Operand(index: int, kind: Kind, text: string,
                             reg: Option<Register>, value: Option<int>,
                             base: Option<Register>, indexReg: Option<Register>, disp: Option<int>,
                             size: Option<int>, isRead: bool, isWrite: bool)

  // The mnemonics the services tell apart, already trimmed and in lower case.
  datatype Mnemonic =
    | Mov | Movzx | Movsx | Movsxd | Lea | Movq | Movd
    | Movb | Movw
    | Xor | Sub
    | CallInsn
    | OtherMnemonic(text: string)

  datatype Instruction = Instruction(ea: int, mnemonic: Mnemonic, operands: seq<Operand>)

  predicate IsNamed(r: Register) { r.family != OtherFamily("") }

  predicate IsStackReg(r: Register) {
    (r.family == RSP || r.family == RBP) && (r.width == Qword || r.width == Dword || r.width == Word)
  }

  /** The displacement of a plain stack slot: a stack-pointer phrase with no index register. */
  function StackSlot(op: Operand): Option<int> {
    if op.kind != PhraseKind || op.base == None || !IsStackReg(op.base.value) || op.indexReg != None then None
    else if op.disp == None then Some(0)
    else op.disp
  }

  function FindOperand(ops: seq<Operand>, index: int): Option<Operand> {
    if ops == [] then None
    else if ops[0].index == index then Some(ops[0])
    else FindOperand(ops[1..], index)
  }

  /** The operand carrying `index`, or failing that the one in that position. */
  function OperandAt(insn: Instruction, index: int): Option<Operand> {
    var found := FindOperand(insn.operands, index);
    if found.Some? then found
    else if 0 <= index < |insn.operands| then Some(insn.operands[index])
    else None
  }
}
