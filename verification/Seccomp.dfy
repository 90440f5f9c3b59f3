/** The syscall filter of `scripts/ffs_inspect_sandbox.py`: the compiler from a deny table
    to classic BPF, and the policy the compiled program enforces. */
module Seccomp {
  import opened Bpf
  import opened Wrappers

  /** One row of the deny table: the number on each architecture, where it exists. */
  datatype Numbers = Numbers(x86: Option<u32>, arm: Option<u32>)

  type DenyTable = map<string, Numbers>

  datatype Machine = X86_64 | AArch64 {
    function AuditArch(): u32 { if X86_64? then 0xC000003E else 0xC00000B7 }
    function Ioctl(): u32 { if X86_64? then 16 else 29 }
    function Number(numbers: Numbers): Option<u32> { if X86_64? then numbers.x86 else numbers.arm }
  }

  function FindMachine(name: string): Option<Machine> {
    if name == "x86_64" then Some(X86_64) else if name == "aarch64" then Some(AArch64) else None
  }

  const TIOCSTI: u32 := 0x5412
  const TIOCLINUX: u32 := 0x541C
  const X32_BIT: u32 := 0x4000_0000

  const KILL: u32 := 0x8000_0000
  const DENY: u32 := 0x0005_0001
  const ALLOW: u32 := 0x7FFF_0000

  // ----- the policy -----

  datatype Decision = Kill | Deny | Allow {
    function Code(): u32 { match this case Kill => KILL case Deny => DENY case Allow => ALLOW }
  }

  ghost predicate Denied(machine: Machine, table: DenyTable, nr: u32) {
    exists name :: name in table && machine.Number(table[name]) == Some(nr)
  }

  predicate ForeignAbi(machine: Machine, data: SeccompData) {
    data.arch != machine.AuditArch() || (machine.X86_64? && data.nr >= X32_BIT)
  }

  /** An ioctl that pushes characters into a terminal. */
  predicate Injects(machine: Machine, data: SeccompData)
    requires data.Valid()
  {
    data.nr == machine.Ioctl() && data.SecondArgument() in {TIOCSTI, TIOCLINUX}
  }

  /** What the filter is for: foreign ABIs are killed, listed calls and terminal-injection
      ioctls are refused, everything else is allowed. */
  ghost function Policy(machine: Machine, table: DenyTable, data: SeccompData): Decision
    requires data.Valid()
  {
    if ForeignAbi(machine, data) then Kill
    else if Denied(machine, table, data.nr) then Deny
    else if Injects(machine, data) then Deny
    else Allow
  }

  // ----- the compiler -----

  function Prologue(machine: Machine): seq<Instruction> {
    [Op(LOAD_WORD_ABSOLUTE, 4, 0, 0), Op(JUMP_IF_EQUAL, machine.AuditArch(), 1, 0), Op(RETURN, KILL, 0, 0),
     Op(LOAD_WORD_ABSOLUTE, 0, 0, 0)]
    + if machine.X86_64? then [Op(JUMP_IF_AT_LEAST, X32_BIT, 0, 1), Op(RETURN, KILL, 0, 0)] else []
  }

  function RowTest(machine: Machine, numbers: Numbers): seq<Instruction> {
    match machine.Number(numbers)
    case None => []
    case Some(number) => [Op(JUMP_IF_EQUAL, number, 0, 1), Op(RETURN, DENY, 0, 0)]
  }

  function RowTests(machine: Machine, table: DenyTable, names: seq<string>): seq<Instruction>
    requires forall name | name in names :: name in table
  {
    if names == [] then [] else RowTest(machine, table[names[0]]) + RowTests(machine, table, names[1..])
  }

  function Epilogue(machine: Machine): seq<Instruction> {
    [Op(JUMP_IF_EQUAL, machine.Ioctl(), 0, 4), Op(LOAD_WORD_ABSOLUTE, 24, 0, 0),
     Op(JUMP_IF_EQUAL, TIOCSTI, 1, 0), Op(JUMP_IF_EQUAL, TIOCLINUX, 0, 1),
     Op(RETURN, DENY, 0, 0), Op(RETURN, ALLOW, 0, 0)]
  }

  function Program(machine: Machine, table: DenyTable, names: seq<string>): seq<Instruction>
    requires forall name | name in names :: name in table
  {
    Prologue(machine) + RowTests(machine, table, names) + Epilogue(machine)
  }

  /** `names` lists the table's keys in some order; the source sorts them. */
  ghost predicate Lists(names: seq<string>, table: DenyTable) {
    forall name :: name in names <==> name in table
  }

  /** Compiles the table for a machine, or refuses an architecture without reviewed numbers. */
  method CompileFilter(machineName: string, table: DenyTable, names: seq<string>) returns (bytes: Option<seq<u8>>)
    requires Lists(names, table)
    ensures bytes.None? <==> machineName != "x86_64" && machineName != "aarch64"
    ensures bytes.Some? ==> bytes.value == Encode(Program(FindMachine(machineName).value, table, names))
    ensures bytes.Some? ==> forall data: SeccompData | data.Valid() ::
              Execute(Decode(bytes.value), data, 0, 0) == Returned(Verdict(machineName, table, data))
  {
    var found := FindMachine(machineName);
    if found.None? {
      return None;
    }
    var program := CompileRows(found.value, table, names);
    bytes := Some(Encode(program + Epilogue(found.value)));
    forall data: SeccompData | data.Valid()
      ensures Execute(Decode(bytes.value), data, 0, 0) == Returned(Verdict(machineName, table, data))
    {
      EmittedBytesDecide(machineName, table, names, data);
    }
  }

  /** What is to become of a call on each machine, in the numbers the kernel uses. */
  ghost function Verdict(machineName: string, table: DenyTable, data: SeccompData): u32
    requires data.Valid()
  {
    if machineName == "x86_64" then
      if data.arch != 0xC000003E || data.nr >= 0x4000_0000 then 0x8000_0000
      else if (exists name :: name in table && table[name].x86 == Some(data.nr))
              || (data.nr == 16 && (data.args[2] == 0x5412 || data.args[2] == 0x541C)) then 0x0005_0001
      else 0x7FFF_0000
    else
      if data.arch != 0xC00000B7 then 0x8000_0000
      else if (exists name :: name in table && table[name].arm == Some(data.nr))
              || (data.nr == 29 && (data.args[2] == 0x5412 || data.args[2] == 0x541C)) then 0x0005_0001
      else 0x7FFF_0000
  }

  /** The bytes emitted for a machine's name decide every call as they should. */
  lemma EmittedBytesDecide(machineName: string, table: DenyTable, names: seq<string>, data: SeccompData)
    requires Lists(names, table) && data.Valid() && (machineName == "x86_64" || machineName == "aarch64")
    ensures FindMachine(machineName).Some?
    ensures Execute(Decode(Encode(Program(FindMachine(machineName).value, table, names))), data, 0, 0)
            == Returned(Verdict(machineName, table, data))
  {
    var machine := FindMachine(machineName).value;
    EmittedBytesEnforcePolicy(machine, table, names, data);
    PolicyIsVerdict(machineName, table, data);
  }

  lemma PolicyIsVerdict(machineName: string, table: DenyTable, data: SeccompData)
    requires data.Valid() && (machineName == "x86_64" || machineName == "aarch64")
    ensures FindMachine(machineName).Some?
    ensures Policy(FindMachine(machineName).value, table, data).Code() == Verdict(machineName, table, data)
  {
    var machine := FindMachine(machineName).value;
    if name :| name in table && table[name].x86 == Some(data.nr) {
      assert machineName == "x86_64" ==> machine.Number(table[name]) == Some(data.nr);
    }
    if name :| name in table && table[name].arm == Some(data.nr) {
      assert machineName == "aarch64" ==> machine.Number(table[name]) == Some(data.nr);
    }
  }

  method CompileRows(machine: Machine, table: DenyTable, names: seq<string>) returns (program: seq<Instruction>)
    requires forall name | name in names :: name in table
    ensures program == Prologue(machine) + RowTests(machine, table, names)
  {
    program := Prologue(machine);
    ghost var whole := program + RowTests(machine, table, names);
    for i := 0 to |names|
      invariant program + RowTests(machine, table, names[i..]) == whole
    {
      var test := RowTest(machine, table[names[i]]);
      assert names[i..][1..] == names[i + 1..];
      assert (program + test) + RowTests(machine, table, names[i + 1..])
          == program + (test + RowTests(machine, table, names[i + 1..]));
      program := program + test;
    }
  }

  // ----- the compiled program enforces the policy -----

  /** `fragment` stands at position `at` of `program`. */
  ghost predicate Holds(program: seq<Instruction>, at: nat, fragment: seq<Instruction>) {
    at + |fragment| <= |program| && program[at..at + |fragment|] == fragment
  }

  lemma HeldOp(program: seq<Instruction>, at: nat, fragment: seq<Instruction>, i: nat)
    requires Holds(program, at, fragment) && i < |fragment|
    ensures program[at + i] == fragment[i]
  {
    assert program[at..at + |fragment|][i] == fragment[i];
  }

  lemma HeldParts(program: seq<Instruction>, at: nat, left: seq<Instruction>, right: seq<Instruction>)
    requires Holds(program, at, left + right)
    ensures Holds(program, at, left) && Holds(program, at + |left|, right)
  {
    var both := program[at..at + |left + right|];
    assert both[..|left|] == left && both[|left|..] == right;
  }

  /** One row's test: refuse on a match, fall through otherwise. */
  lemma RowTestRuns(machine: Machine, numbers: Numbers, program: seq<Instruction>, at: nat, data: SeccompData)
    requires data.Valid() && Holds(program, at, RowTest(machine, numbers))
    ensures var after := at + |RowTest(machine, numbers)|;
            Execute(program, data, at, data.nr)
            == if machine.Number(numbers) == Some(data.nr) then Returned(DENY)
               else Execute(program, data, after, data.nr)
  {
    var test := RowTest(machine, numbers);
    if test != [] {
      HeldOp(program, at, test, 0);
      HeldOp(program, at, test, 1);
    }
  }

  ghost predicate Matches(machine: Machine, table: DenyTable, names: seq<string>, nr: u32)
    requires forall name | name in names :: name in table
  {
    exists name :: name in names && machine.Number(table[name]) == Some(nr)
  }

  lemma MatchesSplits(machine: Machine, table: DenyTable, names: seq<string>, nr: u32)
    requires names != [] && forall name | name in names :: name in table
    ensures Matches(machine, table, names, nr)
            <==> machine.Number(table[names[0]]) == Some(nr) || Matches(machine, table, names[1..], nr)
  {
    assert names == [names[0]] + names[1..];
  }

  lemma MatchesIsDenied(machine: Machine, table: DenyTable, names: seq<string>, nr: u32)
    requires Lists(names, table)
    ensures Matches(machine, table, names, nr) <==> Denied(machine, table, nr)
  {
  }

  /** The row tests together: refused exactly when some listed name has the number. */
  lemma {:induction false} RowTestsRun(machine: Machine, table: DenyTable, names: seq<string>,
                                       program: seq<Instruction>, at: nat, data: SeccompData)
    requires forall name | name in names :: name in table
    requires data.Valid() && Holds(program, at, RowTests(machine, table, names))
    ensures var after := at + |RowTests(machine, table, names)|;
            Execute(program, data, at, data.nr)
            == if Matches(machine, table, names, data.nr) then Returned(DENY)
               else Execute(program, data, after, data.nr)
  {
    if names != [] {
      var first, rest := RowTest(machine, table[names[0]]), RowTests(machine, table, names[1..]);
      HeldParts(program, at, first, rest);
      RowTestRuns(machine, table[names[0]], program, at, data);
      RowTestsRun(machine, table, names[1..], program, at + |first|, data);
      MatchesSplits(machine, table, names, data.nr);
    }
  }

  lemma PrologueRuns(machine: Machine, program: seq<Instruction>, data: SeccompData)
    requires data.Valid() && Holds(program, 0, Prologue(machine))
    ensures Execute(program, data, 0, 0)
            == if ForeignAbi(machine, data) then Returned(KILL)
               else Execute(program, data, |Prologue(machine)|, data.nr)
  {
    var ops := Prologue(machine);
    HeldOp(program, 0, ops, 0);
    HeldOp(program, 0, ops, 1);
    HeldOp(program, 0, ops, 2);
    HeldOp(program, 0, ops, 3);
    assert Execute(program, data, 2, data.arch) == Returned(KILL);
    assert Execute(program, data, 3, data.arch) == Execute(program, data, 4, data.nr);
    assert Execute(program, data, 0, 0) == Execute(program, data, 1, data.arch);
    if machine.X86_64? {
      HeldOp(program, 0, ops, 4);
      HeldOp(program, 0, ops, 5);
      assert Execute(program, data, 5, data.nr) == Returned(KILL);
    }
  }

  lemma EpilogueRuns(machine: Machine, program: seq<Instruction>, at: nat, data: SeccompData)
    requires data.Valid() && Holds(program, at, Epilogue(machine))
    ensures Execute(program, data, at, data.nr) == Returned(if Injects(machine, data) then DENY else ALLOW)
  {
    var ops := Epilogue(machine);
    HeldOp(program, at, ops, 0);
    HeldOp(program, at, ops, 1);
    HeldOp(program, at, ops, 2);
    HeldOp(program, at, ops, 3);
    HeldOp(program, at, ops, 4);
    HeldOp(program, at, ops, 5);
    var cmd := data.SecondArgument();
    assert Execute(program, data, at + 4, cmd) == Returned(DENY);
    assert Execute(program, data, at + 5, cmd) == Execute(program, data, at + 5, data.nr) == Returned(ALLOW);
    assert Execute(program, data, at + 3, cmd) == Returned(if cmd == TIOCLINUX then DENY else ALLOW);
    assert Execute(program, data, at + 1, data.nr) == Execute(program, data, at + 2, cmd);
  }

  /** For every deny table, architecture and system call, in whatever order the table is
      listed, the compiled program decides as the policy says and never faults. That it returns within as
      many steps as it has instructions is the contract of `StepCount`. */
  lemma FilterEnforcesPolicy(machine: Machine, table: DenyTable, names: seq<string>, data: SeccompData)
    requires Lists(names, table) && data.Valid()
    ensures var program := Program(machine, table, names);
            Execute(program, data, 0, 0) == Returned(Policy(machine, table, data).Code())
  {
    var head, rows, tail := Prologue(machine), RowTests(machine, table, names), Epilogue(machine);
    var program := Program(machine, table, names);
    ProgramParts(program, head, rows, tail);
    PrologueRuns(machine, program, data);
    BodyRuns(machine, table, names, program, |head|, data);
    MatchesIsDenied(machine, table, names, data.nr);
  }

  /** The row tests and the ioctl filter after them. */
  lemma BodyRuns(machine: Machine, table: DenyTable, names: seq<string>, program: seq<Instruction>, at: nat,
                 data: SeccompData)
    requires (forall name | name in names :: name in table) && data.Valid()
    requires var rows := RowTests(machine, table, names);
             Holds(program, at, rows) && Holds(program, at + |rows|, Epilogue(machine))
    ensures Execute(program, data, at, data.nr)
            == Returned(if Matches(machine, table, names, data.nr) || Injects(machine, data) then DENY else ALLOW)
  {
    RowTestsRun(machine, table, names, program, at, data);
    EpilogueRuns(machine, program, at + |RowTests(machine, table, names)|, data);
  }

  lemma ProgramParts(program: seq<Instruction>, head: seq<Instruction>, rows: seq<Instruction>, tail: seq<Instruction>)
    requires program == head + rows + tail
    ensures Holds(program, 0, head) && Holds(program, |head|, rows) && Holds(program, |head| + |rows|, tail)
  {
    HeldParts(program, 0, head + rows, tail);
    HeldParts(program, 0, head, rows);
  }

  /** What is emitted is bytes: decoding them gives back a program that enforces the policy. */
  lemma EmittedBytesEnforcePolicy(machine: Machine, table: DenyTable, names: seq<string>, data: SeccompData)
    requires Lists(names, table) && data.Valid()
    ensures Execute(Decode(Encode(Program(machine, table, names))), data, 0, 0)
            == Returned(Policy(machine, table, data).Code())
  {
    DecodeInvertsEncode(Program(machine, table, names));
    FilterEnforcesPolicy(machine, table, names, data);
  }

  // ----- the manifest -----

  /** The names the manifest publishes as denied. */
  ghost function DeniedNames(machine: Machine, table: DenyTable): set<string> {
    set name | name in table && machine.Number(table[name]).Some?
  }

  /** The published names and the refused numbers are the same calls: within the native ABI
      a number other than the filtered ioctl is refused exactly when a published name has it. */
  lemma ManifestAgrees(machine: Machine, table: DenyTable, names: seq<string>, data: SeccompData)
    requires Lists(names, table) && data.Valid() && !ForeignAbi(machine, data)
    ensures var refused := Execute(Program(machine, table, names), data, 0, 0) == Returned(DENY);
            var published := exists name ::
                               name in DeniedNames(machine, table) && machine.Number(table[name]) == Some(data.nr);
            && (published ==> refused)
            && (refused && data.nr != machine.Ioctl() ==> published)
  {
    FilterEnforcesPolicy(machine, table, names, data);
  }

  ghost function NumberedNames(machine: Machine, table: DenyTable, names: seq<string>): set<string>
    requires forall name | name in names :: name in table
  {
    set name | name in names && machine.Number(table[name]).Some?
  }

  lemma NumberedNamesSplit(machine: Machine, table: DenyTable, names: seq<string>)
    requires names != [] && (forall name | name in names :: name in table) && names[0] !in names[1..]
    ensures |NumberedNames(machine, table, names)|
            == |NumberedNames(machine, table, names[1..])| + if machine.Number(table[names[0]]).Some? then 1 else 0
  {
    assert names == [names[0]] + names[1..];
    var rest := NumberedNames(machine, table, names[1..]);
    assert NumberedNames(machine, table, names)
        == if machine.Number(table[names[0]]).Some? then rest + {names[0]} else rest;
  }

  lemma {:induction false} RowTestsLength(machine: Machine, table: DenyTable, names: seq<string>)
    requires forall name | name in names :: name in table
    requires forall i, j | 0 <= i < j < |names| :: names[i] != names[j]
    ensures |RowTests(machine, table, names)| == 2 * |NumberedNames(machine, table, names)|
  {
    if names != [] {
      NumberedNamesSplit(machine, table, names);
      RowTestsLength(machine, table, names[1..]);
    }
  }

  /** The `instructions` field: the emitted bytes hold the prologue, two instructions for each
      published name, and the ioctl filter. */
  lemma InstructionCount(machine: Machine, table: DenyTable, names: seq<string>)
    requires Lists(names, table) && forall i, j | 0 <= i < j < |names| :: names[i] != names[j]
    ensures |Encode(Program(machine, table, names))| / 8
            == 4 + (if machine.X86_64? then 2 else 0) + 2 * |DeniedNames(machine, table)| + 6
  {
    RowTestsLength(machine, table, names);
    assert DeniedNames(machine, table) == NumberedNames(machine, table, names);
  }
}
