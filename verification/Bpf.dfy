/** Model of src/bpf.rs: the classic BPF validator, the virtual machine and the filter compiler. */
module Bpf {
  import opened Prelude
  import opened Text

  const WORD: nat := 0x1_0000_0000
  const MEMWORDS: nat := 16
  const MAX_INSNS: nat := 4096
  const ACCEPT_ALL: U32 := 0xFFFF_FFFF

  type U32 = x: int | 0 <= x < 0x1_0000_0000
  type U16 = x: int | 0 <= x < 0x1_0000

  datatype Insn = Insn(opcode: U16, jt: Byte, jf: Byte, k: U32) {
    function Class(): nat { opcode as int % 8 }          // opcode & 0x07
    function Size(): nat { opcode as int / 8 % 4 * 8 }   // opcode & 0x18
    function Mode(): nat { opcode as int / 32 % 8 * 32 } // opcode & 0xe0
    function Op(): nat { opcode as int / 16 % 16 * 16 }  // opcode & 0xf0
    predicate FromX() { opcode as int / 8 % 2 == 1 }     // opcode & 0x08
  }

  const ST: nat := 2
  const STX: nat := 3
  const ALU: nat := 4
  const JMP: nat := 5
  const RET: nat := 6

  const SIZE_W: nat := 0x00
  const SIZE_H: nat := 0x08
  const SIZE_B: nat := 0x10

  const JA: nat := 0x00
  const DIV: nat := 0x30
  const MOD: nat := 0x90

  // ----- The validator -----

  /** Jumps of `p[i]` stay inside the program, stores stay inside scratch memory, constant divisors are not zero. */
  predicate InsnOk(p: seq<Insn>, i: nat)
    requires i < |p|
  {
    var insn := p[i];
    && (insn.Class() == JMP ==>
          if insn.Op() == JA then i + 1 + insn.k < |p| else i + 1 + insn.jt < |p| && i + 1 + insn.jf < |p|)
    && (insn.Class() == ST || insn.Class() == STX ==> insn.k < MEMWORDS)
    && (insn.Class() == ALU && (insn.Op() == DIV || insn.Op() == MOD) && !insn.FromX() ==> insn.k != 0)
  }

  predicate Accepts(p: seq<Insn>) {
    && 0 < |p| <= MAX_INSNS
    && (forall i: nat | i < |p| :: InsnOk(p, i))
    && p[|p| - 1].Class() == RET
  }

  /** The checks of `BpfVm::new`; the result is the reason for a rejection. */
  method Validate(p: seq<Insn>) returns (r: Option<string>)
    ensures r.None? <==> Accepts(p)
  {
    if |p| == 0 {
      return Some("empty program");
    }
    if |p| > MAX_INSNS {
      return Some("program too long");
    }
    for i := 0 to |p|
      invariant forall j: nat | j < i :: InsnOk(p, j)
    {
      var insn := p[i];
      if insn.Class() == JMP {
        if insn.Op() == JA {
          if i + 1 + insn.k >= |p| {
            assert !InsnOk(p, i);
            return Some("jump target out of bounds");
          }
        } else if i + 1 + insn.jt >= |p| || i + 1 + insn.jf >= |p| {
          assert !InsnOk(p, i);
          return Some("conditional jump target out of bounds");
        }
      }
      if (insn.Class() == ST || insn.Class() == STX) && insn.k >= MEMWORDS {
        assert !InsnOk(p, i);
        return Some("memory index out of bounds");
      }
      if insn.Class() == ALU && (insn.Op() == DIV || insn.Op() == MOD) && !insn.FromX() && insn.k == 0 {
        assert !InsnOk(p, i);
        return Some("division by zero in constant");
      }
    }
    if p[|p| - 1].Class() != RET {
      return Some("program does not end with RET");
    }
    r := None;
  }

  // ----- The machine -----

  type Packet = seq<Byte>
  type Scratch = s: seq<U32> | |s| == 16 witness seq(16, _ => 0)

  datatype Regs = Regs(a: U32, x: U32, pc: nat, mem: Scratch)

  datatype Outcome = Go(regs: Regs) | Halt(verdict: U32)

  predicate IsWidth(width: nat) {
    width == 1 || width == 2 || width == 4
  }

  /** A big-endian field of the packet; zero when it does not lie inside the packet. */
  function Field(pkt: Packet, off: nat, width: nat): (r: nat)
    requires IsWidth(width)
    ensures r < WORD
  {
    if off + width > |pkt| then 0
    else match width
      case 1 => pkt[off]
      case 2 => pkt[off] as int * 0x100 + pkt[off + 1]
      case _ => ((pkt[off] as int * 0x100 + pkt[off + 1]) * 0x100 + pkt[off + 2]) * 0x100 + pkt[off + 3]
  }

  function LoadPacket(pkt: Packet, off: nat, size: nat): U32 {
    if size == SIZE_W then Field(pkt, off, 4)
    else if size == SIZE_H then Field(pkt, off, 2)
    else if size == SIZE_B then Field(pkt, off, 1)
    else 0
  }

  function And(a: U32, b: U32): U32 { ((a as bv32) & (b as bv32)) as U32 }
  function Or(a: U32, b: U32): U32 { ((a as bv32) | (b as bv32)) as U32 }
  function Xor(a: U32, b: U32): U32 { ((a as bv32) ^ (b as bv32)) as U32 }

  /** The new accumulator; None where the machine gives up. */
  function Alu(op: nat, a: U32, v: U32): Option<U32> {
    var x, y := a as int, v as int;
    match op
    case 0x00 => Some((x + y) % WORD)
    case 0x10 => Some((x - y) % WORD)
    case 0x20 => Some(x * y % WORD)
    case 0x30 => if y == 0 then None else DivBound(x, y); Some(x / y)
    case 0x40 => Some(Or(a, v))
    case 0x50 => Some(And(a, v))
    case 0x60 => Some(x * Pow2(y % 32) % WORD)
    case 0x70 => DivBound(x, Pow2(y % 32)); Some(x / Pow2(y % 32))
    case 0x80 => Some(-x % WORD)
    case 0x90 => if y == 0 then None else Some(x % y)
    case 0xa0 => Some(Xor(a, v))
    case _ => None
  }

  predicate Jumps(op: nat, a: U32, v: U32) {
    match op
    case 0x10 => a == v
    case 0x20 => a > v
    case 0x30 => a >= v
    case 0x40 => And(a, v) != 0
    case _ => false
  }

  /** One turn of the loop of `run`: it moves forward, whatever the program. */
  function Step(insn: Insn, pkt: Packet, r: Regs): (o: Outcome)
    ensures o.Go? ==> r.pc < o.regs.pc
  {
    var next := r.(pc := r.pc + 1);
    var v := if insn.FromX() then r.x else insn.k;
    match insn.Class()
    case 0 => (match insn.Mode()
               case 0x00 => Go(next.(a := insn.k))
               case 0x20 => Go(next.(a := LoadPacket(pkt, insn.k, insn.Size())))
               case 0x40 => Go(next.(a := LoadPacket(pkt, (r.x as int + insn.k as int) % WORD, insn.Size())))
               case 0x60 => Go(if insn.k < MEMWORDS then next.(a := r.mem[insn.k]) else next)
               case 0x80 => Go(next.(a := |pkt| % WORD))
               case _ => Halt(0))
    case 1 => (match insn.Mode()
               case 0x00 => Go(next.(x := insn.k))
               case 0x60 => Go(if insn.k < MEMWORDS then next.(x := r.mem[insn.k]) else next)
               case 0x80 => Go(next.(x := |pkt| % WORD))
               case _ => Halt(0))
    case 2 => Go(if insn.k < MEMWORDS then next.(mem := r.mem[insn.k as int := r.a]) else next)
    case 3 => Go(if insn.k < MEMWORDS then next.(mem := r.mem[insn.k as int := r.x]) else next)
    case 4 => (match Alu(insn.Op(), r.a, v)
               case Some(a) => Go(next.(a := a))
               case None => Halt(0))
    case 5 => if insn.Op() == JA then Go(next.(pc := r.pc + insn.k + 1))
              else if Jumps(insn.Op(), r.a, v) then Go(next.(pc := r.pc + insn.jt + 1))
              else Go(next.(pc := r.pc + insn.jf + 1))
    case 6 => Halt(if insn.Size() == 0 then insn.k else r.a)
    case _ => (match insn.Op()
               case 0x00 => Go(next.(x := r.a))
               case 0x80 => Go(next.(a := r.x))
               case _ => Halt(0))
  }

  /** How a run ends: with a verdict after some number of instructions, or past the last instruction. */
  datatype End = Returned(verdict: U32, steps: nat) | FellOff

  function Exec(p: seq<Insn>, pkt: Packet, r: Regs, steps: nat): End
    decreases |p| - r.pc
  {
    if r.pc >= |p| then FellOff
    else
      match Step(p[r.pc], pkt, r)
      case Halt(v) => Returned(v, steps + 1)
      case Go(r') => Exec(p, pkt, r', steps + 1)
  }

  function Zeros(): Scratch {
    seq(16, _ => 0)
  }

  function Reset(): Regs {
    Regs(0, 0, 0, Zeros())
  }

  /** The verdict of `run`. */
  function Verdict(p: seq<Insn>, pkt: Packet): U32 {
    match Exec(p, pkt, Reset(), 0)
    case Returned(v, _) => v
    case FellOff => 0
  }

  /** In a validated program the next instruction always exists. */
  lemma StepStaysInside(p: seq<Insn>, pkt: Packet, r: Regs)
    requires Accepts(p) && r.pc < |p|
    ensures var o := Step(p[r.pc], pkt, r);
            o.Go? ==> r.pc < o.regs.pc < |p|
  {
    assert InsnOk(p, r.pc);
    if r.pc == |p| - 1 {
      assert p[r.pc].Class() == RET;
    }
  }

  /** A validated program never runs past its end, and takes at most one step per instruction. */
  lemma {:induction false} AcceptedHalts(p: seq<Insn>, pkt: Packet, r: Regs, steps: nat)
    requires Accepts(p) && r.pc < |p| && steps <= r.pc
    ensures Exec(p, pkt, r, steps).Returned? && Exec(p, pkt, r, steps).steps <= |p|
    decreases |p| - r.pc
  {
    StepStaysInside(p, pkt, r);
    var o := Step(p[r.pc], pkt, r);
    if o.Go? {
      AcceptedHalts(p, pkt, o.regs, steps + 1);
    }
  }

  /** A loaded program and its scratch memory. */
  class BpfVm {
    const program: seq<Insn>
    var mem: Scratch

    ghost predicate Valid()
    {
      Accepts(program)
    }

    constructor (program: seq<Insn>)
      requires Accepts(program)
      ensures Valid() && this.program == program
    {
      this.program := program;
      mem := Zeros();
    }

    static method New(program: seq<Insn>) returns (r: Result<BpfVm, string>)
      ensures r.Ok? <==> Accepts(program)
      ensures r.Ok? ==> fresh(r.value) && r.value.Valid() && r.value.program == program
    {
      var error := Validate(program);
      if error.Some? {
        return Err(error.value);
      }
      var vm := new BpfVm(program);
      r := Ok(vm);
    }

    /** The verdict depends on the program and the packet alone, not on earlier runs. */
    method Run(pkt: Packet) returns (verdict: U32)
      requires Valid()
      modifies this
      ensures verdict == Verdict(program, pkt)
    {
      mem := Zeros();
      var regs := Regs(0, 0, 0, mem);
      ghost var steps := 0;
      AcceptedHalts(program, pkt, regs, 0);
      while regs.pc < |program|
        invariant regs.pc < |program| && steps <= regs.pc
        invariant Exec(program, pkt, regs, steps) == Exec(program, pkt, Reset(), 0)
        decreases |program| - regs.pc
      {
        StepStaysInside(program, pkt, regs);
        match Step(program[regs.pc], pkt, regs)
        case Halt(v) => return v;
        case Go(next) =>
          regs := next;
          mem := next.mem;
          steps := steps + 1;
      }
      assert false;  // a validated program does not run past its end, where the source returns 0
    }
  }

  // ----- The filter compiler -----

  datatype Filter = Tcp | Udp | Icmp | Port(port: U32) | Host(addr: U32) | TcpPort(port: U32)

  function ParseIpv4(s: string): Result<U32, string> {
    var parts := SplitOn(s, '.');
    if |parts| != 4 then Err("invalid IPv4 address")
    else
      var a, b, c, d := ParseUnsigned(parts[0], 255), ParseUnsigned(parts[1], 255),
                        ParseUnsigned(parts[2], 255), ParseUnsigned(parts[3], 255);
      if a.None? || b.None? || c.None? || d.None? then Err("invalid IPv4 octet")
      else Ok(a.value * 0x100_0000 + b.value * 0x1_0000 + c.value * 0x100 + d.value)
  }

  /** The filter that the words of an expression ask for. */
  function ParseFilter(parts: seq<string>): Result<Filter, string> {
    if parts == [] then Err("empty filter expression")
    else if parts == ["tcp"] then Ok(Tcp)
    else if parts == ["udp"] then Ok(Udp)
    else if parts == ["icmp"] then Ok(Icmp)
    else if |parts| == 2 && parts[0] == "port" then
      var n := ParseUnsigned(parts[1], ACCEPT_ALL);
      if n.Some? then Ok(Port(n.value)) else Err("invalid port number")
    else if |parts| == 2 && parts[0] == "host" then
      var n := ParseIpv4(parts[1]);
      if n.Ok? then Ok(Host(n.value)) else Err(n.error)
    else if |parts| == 3 && parts[0] == "tcp" && parts[1] == "port" then
      var n := ParseUnsigned(parts[2], ACCEPT_ALL);
      if n.Some? then Ok(TcpPort(n.value)) else Err("invalid port number")
    else Err("unsupported filter expression")
  }

  const LD_B_ABS: U16 := 0x30
  const LD_H_ABS: U16 := 0x28
  const LD_W_ABS: U16 := 0x20
  const JEQ_K: U16 := 0x15
  const RET_K: U16 := 0x06

  const ACCEPT: Insn := Insn(RET_K, 0, 0, ACCEPT_ALL)
  const REJECT: Insn := Insn(RET_K, 0, 0, 0)

  function Emit(f: Filter): seq<Insn> {
    match f
    case Tcp => [Insn(LD_B_ABS, 0, 0, 23), Insn(JEQ_K, 0, 1, 6), ACCEPT, REJECT]
    case Udp => [Insn(LD_B_ABS, 0, 0, 23), Insn(JEQ_K, 0, 1, 17), ACCEPT, REJECT]
    case Icmp => [Insn(LD_B_ABS, 0, 0, 23), Insn(JEQ_K, 0, 1, 1), ACCEPT, REJECT]
    case Port(n) =>
      [Insn(LD_H_ABS, 0, 0, 34), Insn(JEQ_K, 2, 0, n), Insn(LD_H_ABS, 0, 0, 36), Insn(JEQ_K, 0, 1, n), ACCEPT, REJECT]
    case Host(n) =>
      [Insn(LD_W_ABS, 0, 0, 26), Insn(JEQ_K, 2, 0, n), Insn(LD_W_ABS, 0, 0, 30), Insn(JEQ_K, 0, 1, n), ACCEPT, REJECT]
    case TcpPort(n) =>
      [Insn(LD_B_ABS, 0, 0, 23), Insn(JEQ_K, 0, 5, 6),
       Insn(LD_H_ABS, 0, 0, 34), Insn(JEQ_K, 2, 0, n), Insn(LD_H_ABS, 0, 0, 36), Insn(JEQ_K, 0, 1, n), ACCEPT, REJECT]
  }

  function CompileFilter(expr: string): Result<seq<Insn>, string> {
    match ParseFilter(SplitWords(expr))
    case Ok(f) => Ok(Emit(f))
    case Err(e) => Err(e)
  }

  /** What a filter means: fixed fields of an Ethernet frame that carries IPv4 without options. */
  predicate Holds(f: Filter, pkt: Packet) {
    match f
    case Tcp => Field(pkt, 23, 1) == 6
    case Udp => Field(pkt, 23, 1) == 17
    case Icmp => Field(pkt, 23, 1) == 1
    case Port(n) => Field(pkt, 34, 2) == n || Field(pkt, 36, 2) == n
    case Host(n) => Field(pkt, 26, 4) == n || Field(pkt, 30, 4) == n
    case TcpPort(n) => Field(pkt, 23, 1) == 6 && (Field(pkt, 34, 2) == n || Field(pkt, 36, 2) == n)
  }

  lemma EmittedIsAccepted(f: Filter)
    ensures Accepts(Emit(f))
  {
  }

  /** Load a field of the packet, then jump on its value. */
  lemma LoadAndCompare(p: seq<Insn>, pkt: Packet, r: Regs, steps: nat, opcode: U16, width: nat)
    requires r.pc + 2 < |p|
    requires p[r.pc].opcode == opcode && p[r.pc + 1].opcode == JEQ_K
    requires || (opcode == LD_B_ABS && width == 1)
             || (opcode == LD_H_ABS && width == 2)
             || (opcode == LD_W_ABS && width == 4)
    ensures var field := Field(pkt, p[r.pc].k, width);
            var jeq := p[r.pc + 1];
            field < WORD &&
            Exec(p, pkt, r, steps) ==
              Exec(p, pkt, r.(a := field, pc := r.pc + 2 + if field == jeq.k then jeq.jt else jeq.jf), steps + 2)
  {
    var r1 := r.(a := Field(pkt, p[r.pc].k, width), pc := r.pc + 1);
    assert Step(p[r.pc], pkt, r) == Go(r1);
    assert Exec(p, pkt, r, steps) == Exec(p, pkt, r1, steps + 1);
    var jeq := p[r.pc + 1];
    var r2 := r1.(pc := r.pc + 2 + if r1.a == jeq.k then jeq.jt else jeq.jf);
    assert Step(jeq, pkt, r1) == Go(r2);
  }

  lemma ReturnsAt(p: seq<Insn>, pkt: Packet, r: Regs, steps: nat)
    requires r.pc < |p| && p[r.pc].opcode == RET_K
    ensures Exec(p, pkt, r, steps) == Returned(p[r.pc].k, steps + 1)
  {
  }

  /** One byte compared with a value, as in the protocol filters. */
  lemma OneField(p: seq<Insn>, pkt: Packet, r: Regs, steps: nat)
    requires r.pc + 4 == |p| && p[r.pc].opcode == LD_B_ABS && p[r.pc + 1] == Insn(JEQ_K, 0, 1, p[r.pc + 1].k)
    requires p[r.pc + 2] == ACCEPT && p[r.pc + 3] == REJECT
    ensures var end := Exec(p, pkt, r, steps);
            end.Returned? && end.verdict == if Field(pkt, p[r.pc].k, 1) == p[r.pc + 1].k then ACCEPT_ALL else 0
  {
    var field := Field(pkt, p[r.pc].k, 1);
    LoadAndCompare(p, pkt, r, steps, LD_B_ABS, 1);
    ReturnsAt(p, pkt, r.(a := field, pc := r.pc + if field == p[r.pc + 1].k then 2 else 3), steps + 2);
  }

  lemma ProtocolVerdict(pkt: Packet, n: Byte)
    ensures Verdict([Insn(LD_B_ABS, 0, 0, 23), Insn(JEQ_K, 0, 1, n), ACCEPT, REJECT], pkt)
         == if Field(pkt, 23, 1) == n then ACCEPT_ALL else 0
  {
    OneField([Insn(LD_B_ABS, 0, 0, 23), Insn(JEQ_K, 0, 1, n), ACCEPT, REJECT], pkt, Reset(), 0);
  }

  /** Two fields compared with the same value, as at the end of the port and host filters. */
  lemma EitherField(p: seq<Insn>, pkt: Packet, r: Regs, steps: nat, opcode: U16, width: nat)
    requires r.pc + 6 == |p| && p[r.pc + 4] == ACCEPT && p[r.pc + 5] == REJECT
    requires (opcode == LD_H_ABS && width == 2) || (opcode == LD_W_ABS && width == 4)
    requires p[r.pc].opcode == p[r.pc + 2].opcode == opcode
    requires p[r.pc + 1] == Insn(JEQ_K, 2, 0, p[r.pc + 1].k) && p[r.pc + 3] == Insn(JEQ_K, 0, 1, p[r.pc + 1].k)
    ensures var n := p[r.pc + 1].k;
            var hit := Field(pkt, p[r.pc].k, width) == n || Field(pkt, p[r.pc + 2].k, width) == n;
            var end := Exec(p, pkt, r, steps);
            end.Returned? && end.verdict == if hit then ACCEPT_ALL else 0
  {
    var f1, f2, n := Field(pkt, p[r.pc].k, width), Field(pkt, p[r.pc + 2].k, width), p[r.pc + 1].k;
    LoadAndCompare(p, pkt, r, steps, opcode, width);
    var r1 := r.(a := f1, pc := r.pc + if f1 == n then 4 else 2);
    if f1 == n {
      ReturnsAt(p, pkt, r1, steps + 2);
    } else {
      LoadAndCompare(p, pkt, r1, steps + 2, opcode, width);
      ReturnsAt(p, pkt, r1.(a := f2, pc := r.pc + if f2 == n then 4 else 5), steps + 4);
    }
  }

  /** A compiled filter passes the validator and accepts a packet exactly when the filter holds of it. */
  lemma EmittedIsCorrect(f: Filter, pkt: Packet)
    ensures Accepts(Emit(f))
    ensures Verdict(Emit(f), pkt) == if Holds(f, pkt) then ACCEPT_ALL else 0
  {
    EmittedIsAccepted(f);
    match f
    case Tcp => ProtocolVerdict(pkt, 6);
    case Udp => ProtocolVerdict(pkt, 17);
    case Icmp => ProtocolVerdict(pkt, 1);
    case Port(n) => EitherField(Emit(f), pkt, Reset(), 0, LD_H_ABS, 2);
    case Host(n) => EitherField(Emit(f), pkt, Reset(), 0, LD_W_ABS, 4);
    case TcpPort(n) => TcpPortVerdict(n, pkt);
  }

  lemma TcpPortVerdict(n: U32, pkt: Packet)
    ensures Verdict(Emit(TcpPort(n)), pkt) == if Holds(TcpPort(n), pkt) then ACCEPT_ALL else 0
  {
    var p, r := Emit(TcpPort(n)), Reset();
    LoadAndCompare(p, pkt, r, 0, LD_B_ABS, 1);
    var proto := Field(pkt, 23, 1);
    if proto == 6 {
      EitherField(p, pkt, r.(a := proto, pc := 2), 2, LD_H_ABS, 2);
    } else {
      ReturnsAt(p, pkt, r.(a := proto, pc := 7), 2);
    }
  }

  // ----- Filters in words -----

  function Octets(n: U32): (r: (nat, nat, nat, nat))
    ensures r.0 < 256 && r.1 < 256 && r.2 < 256 && r.3 < 256
    ensures r.0 * 0x100_0000 + r.1 * 0x1_0000 + r.2 * 0x100 + r.3 == n
  {
    var m := n as int;
    (m / 256 / 256 / 256, m / 256 / 256 % 256, m / 256 % 256, m % 256)
  }

  function Dotted(n: U32): string {
    var (a, b, c, d) := Octets(n);
    Decimal(a) + ['.'] + (Decimal(b) + ['.'] + (Decimal(c) + ['.'] + Decimal(d)))
  }

  /** The words of a filter. */
  function Words(f: Filter): seq<string> {
    match f
    case Tcp => ["tcp"]
    case Udp => ["udp"]
    case Icmp => ["icmp"]
    case Port(n) => ["port", Decimal(n)]
    case Host(n) => ["host", Dotted(n)]
    case TcpPort(n) => ["tcp", "port", Decimal(n)]
  }

  lemma OctetDigits(n: nat)
    requires n < 256
    ensures '.' !in Decimal(n) && ParseUnsigned(Decimal(n), 255) == Some(n) && IsWord(Decimal(n))
  {
    DecimalValue(n);
    DigitsLack(Decimal(n), '.');
    ParseDecimal(n, 255);
  }

  lemma SplitLast(c: string, d: string)
    requires '.' !in c && '.' !in d
    ensures SplitOn(c + ['.'] + d, '.') == [c] + [d]
  {
    SplitConcat(c, '.', d);
    FindNone(d, '.');
  }

  lemma SplitDotted(a: string, b: string, c: string, d: string, rest: string, all: string)
    requires '.' !in a && '.' !in b && '.' !in c && '.' !in d
    requires rest == c + ['.'] + d && all == a + ['.'] + (b + ['.'] + rest)
    ensures SplitOn(all, '.') == [a] + ([b] + ([c] + [d]))
  {
    SplitConcat(a, '.', b + ['.'] + rest);
    SplitConcat(b, '.', rest);
    SplitLast(c, d);
  }

  lemma ParseFour(s: string, parts: seq<string>, a: nat, b: nat, c: nat, d: nat, n: U32)
    requires a < 256 && b < 256 && c < 256 && d < 256
    requires a * 0x100_0000 + b * 0x1_0000 + c * 0x100 + d == n && |parts| == 4 && SplitOn(s, '.') == parts
    requires ParseUnsigned(parts[0], 255) == Some(a) && ParseUnsigned(parts[1], 255) == Some(b)
    requires ParseUnsigned(parts[2], 255) == Some(c) && ParseUnsigned(parts[3], 255) == Some(d)
    ensures ParseIpv4(s) == Ok(n)
  {
  }

  lemma WordConcat(a: string, b: string)
    requires IsWord(a) && IsWord(b)
    ensures IsWord(a + ['.'] + b)
  {
  }

  lemma ParseDotted(n: U32)
    ensures ParseIpv4(Dotted(n)) == Ok(n) && IsWord(Dotted(n))
  {
    var (a, b, c, d) := Octets(n);
    OctetDigits(a);
    OctetDigits(b);
    OctetDigits(c);
    OctetDigits(d);
    var p, q, r, t := Decimal(a), Decimal(b), Decimal(c), Decimal(d);
    var rest := r + ['.'] + t;
    SplitDotted(p, q, r, t, rest, Dotted(n));
    ParseFour(Dotted(n), [p] + ([q] + ([r] + [t])), a, b, c, d, n);
    WordConcat(r, t);
    WordConcat(q, rest);
    WordConcat(p, q + ['.'] + rest);
  }

  lemma NumberWord(n: U32)
    ensures ParseUnsigned(Decimal(n), ACCEPT_ALL) == Some(n) && IsWord(Decimal(n))
  {
    DecimalValue(n);
    ParseDecimal(n, ACCEPT_ALL);
  }

  lemma ParseTwo(keyword: string, operand: string)
    requires keyword == "port" || keyword == "host"
    ensures ParseFilter([keyword, operand])
         == if keyword == "port" then
              var n := ParseUnsigned(operand, ACCEPT_ALL);
              if n.Some? then Ok(Port(n.value)) else Err("invalid port number")
            else
              var n := ParseIpv4(operand);
              if n.Ok? then Ok(Host(n.value)) else Err(n.error)
  {
  }

  lemma ParseThree(operand: string)
    requires ParseUnsigned(operand, ACCEPT_ALL).Some?
    ensures ParseFilter(["tcp", "port", operand]) == Ok(TcpPort(ParseUnsigned(operand, ACCEPT_ALL).value))
  {
  }

  /** Parsing the words of a filter gives it back. */
  lemma ParseWords(f: Filter)
    ensures ParseFilter(Words(f)) == Ok(f)
  {
    match f
    case Tcp =>
    case Udp =>
    case Icmp =>
    case Host(n) =>
      ParseDotted(n);
      ParseTwo("host", Dotted(n));
    case Port(n) =>
      NumberWord(n);
      ParseTwo("port", Decimal(n));
    case TcpPort(n) =>
      NumberWord(n);
      ParseThree(Decimal(n));
  }

  lemma WordsAreWords(f: Filter)
    ensures forall w | w in Words(f) :: IsWord(w)
  {
    match f
    case Tcp =>
    case Udp =>
    case Icmp =>
    case Host(n) => ParseDotted(n);
    case Port(n) => NumberWord(n);
    case TcpPort(n) => NumberWord(n);
  }

  /** The text of any filter, with any spaces, compiles to a program that decides that filter. */
  lemma PrintedFilterIsCorrect(f: Filter, gaps: seq<string>, pkt: Packet)
    requires |gaps| == |Words(f)| + 1 && forall g | g in gaps :: Spaces(g)
    requires forall i | 0 < i < |Words(f)| :: gaps[i] != ""
    ensures var r := CompileFilter(JoinWords(Words(f), gaps));
            r.Ok? && Accepts(r.value) && Verdict(r.value, pkt) == if Holds(f, pkt) then ACCEPT_ALL else 0
  {
    ParseWords(f);
    WordsAreWords(f);
    SplitJoined(Words(f), gaps);
    EmittedIsCorrect(f, pkt);
  }

  /** Whatever text compiles, its program passes the validator and decides the parsed filter. */
  lemma CompiledIsCorrect(expr: string, pkt: Packet)
    requires CompileFilter(expr).Ok?
    ensures Accepts(CompileFilter(expr).value)
    ensures Verdict(CompileFilter(expr).value, pkt)
         == if Holds(ParseFilter(SplitWords(expr)).value, pkt) then ACCEPT_ALL else 0
  {
    EmittedIsCorrect(ParseFilter(SplitWords(expr)).value, pkt);
  }

  // ----- Fields that are missing -----

  /** The field lies inside the packet and has the value. */
  predicate HasField(pkt: Packet, off: nat, width: nat, v: nat)
    requires IsWidth(width)
  {
    off + width <= |pkt| && Field(pkt, off, width) == v
  }

  /** What a filter promises: a field of the packet, not one beyond its end, has the value. */
  predicate HoldsStrictly(f: Filter, pkt: Packet) {
    match f
    case Tcp => HasField(pkt, 23, 1, 6)
    case Udp => HasField(pkt, 23, 1, 17)
    case Icmp => HasField(pkt, 23, 1, 1)
    case Port(n) => HasField(pkt, 34, 2, n) || HasField(pkt, 36, 2, n)
    case Host(n) => HasField(pkt, 26, 4, n) || HasField(pkt, 30, 4, n)
    case TcpPort(n) => HasField(pkt, 23, 1, 6) && (HasField(pkt, 34, 2, n) || HasField(pkt, 36, 2, n))
  }

  predicate ZeroOperand(f: Filter) {
    f == Port(0) || f == Host(0) || f == TcpPort(0)
  }

  /** The packet is too short for the last field, which reads as zero and is taken for the operand. */
  predicate MissingFieldCounts(f: Filter, pkt: Packet) {
    ZeroOperand(f) && |pkt| < (if f.Host? then 34 else 38) && (f.TcpPort? ==> HasField(pkt, 23, 1, 6))
  }

  /** A packet is accepted exactly when the strict meaning holds or a missing field counts. */
  lemma AcceptedExactly(f: Filter, pkt: Packet)
    ensures Verdict(Emit(f), pkt) == ACCEPT_ALL <==> HoldsStrictly(f, pkt) || MissingFieldCounts(f, pkt)
  {
    EmittedIsCorrect(f, pkt);
  }

  ghost predicate KeepsPromise(f: Filter) {
    forall pkt: Packet :: (Verdict(Emit(f), pkt) == ACCEPT_ALL) == HoldsStrictly(f, pkt)
  }

  /** A short packet that a filter with operand zero accepts. */
  lemma ZeroOperandFails(f: Filter) returns (pkt: Packet)
    requires ZeroOperand(f)
    ensures Verdict(Emit(f), pkt) == ACCEPT_ALL && !HoldsStrictly(f, pkt)
  {
    pkt := seq(24, i => if i == 23 then 6 else 0);
    AcceptedExactly(f, pkt);
  }

  /** A filter accepts exactly the packets with the promised fields, for all packets, exactly when its operand is not
      zero. */
  lemma PromiseKeptExactly(f: Filter)
    ensures KeepsPromise(f) <==> !ZeroOperand(f)
  {
    if ZeroOperand(f) {
      var pkt := ZeroOperandFails(f);
      assert (Verdict(Emit(f), pkt) == ACCEPT_ALL) != HoldsStrictly(f, pkt);
    } else {
      forall pkt: Packet ensures (Verdict(Emit(f), pkt) == ACCEPT_ALL) == HoldsStrictly(f, pkt) {
        AcceptedExactly(f, pkt);
      }
    }
  }
}
