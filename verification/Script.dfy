/** The script helpers of src/script.c that the segwit addresses use. */
module Script {
  import opened Common

  /** `script_is_op_n` with zero allowed: the number that OP_0 or OP_1..OP_16 stands for. */
  function OpN(op: Byte): (n: Option<nat>)
    ensures n.Some? ==> n.value <= 16
  {
    if op == 0 then Some(0) else if 0x51 <= op <= 0x60 then Some(op - 0x50) else None
  }

  /** `value_to_op_n` */
  function ValueToOpN(v: nat): Byte
    requires v <= 16
  {
    if v == 0 then 0 else 0x50 + v
  }

  function LittleEndian(b: Bytes): nat {
    if b == [] then 0 else b[0] + 256 * LittleEndian(b[1..])
  }

  /** The opcode's length and the number of bytes it announces. */
  function PushHeader(bytes: Bytes): Option<(nat, nat)> {
    if bytes == [] then None
    else if bytes[0] < 76 then Some((1, bytes[0]))
    else
      var opcode := if bytes[0] == 0x4c then 2 else if bytes[0] == 0x4d then 3 else if bytes[0] == 0x4e then 5 else 0;
      if opcode == 0 || |bytes| < opcode then None else Some((opcode, LittleEndian(bytes[1..opcode])))
  }

  /** `script_get_push_size_from_bytes`: the size of the push that starts the script. */
  function PushSize(bytes: Bytes): Option<nat> {
    match PushHeader(bytes)
    case None => None
    case Some((opcode, n)) => if |bytes| < opcode + n then None else Some(n)
  }

  /** A witness program as a script: its version and a push of its bytes. */
  function WitnessScript(version: nat, program: Bytes): (s: Bytes)
    requires version <= 16 && |program| < 76
    ensures |s| == |program| + 2
  {
    [ValueToOpN(version), |program|] + program
  }

  lemma WitnessScriptReads(version: nat, program: Bytes)
    requires version <= 16 && |program| < 76
    ensures var s := WitnessScript(version, program);
            OpN(s[0]) == Some(version) && PushSize(s[1..]) == Some(|program|) && s[2..] == program
  {
  }

  lemma OpNInverse(op: Byte)
    requires OpN(op).Some?
    ensures ValueToOpN(OpN(op).value) == op
  {
  }
}
