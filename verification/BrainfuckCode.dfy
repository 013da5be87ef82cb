/** The interpreter of bf.c in its own form: one loop over the program with the tape changed in
    place, and the two inner loops that look for a bracket. */
module BrainfuckCode {
  import opened Brainfuck
  import opened BrainfuckMeaning

  class Interpreter {
    const program: array<char>
    const tape: array<Cell>
    var ptr: nat
    var printed: seq<Cell>
    var taken: nat

    constructor (program: array<char>)
      ensures this.program == program && fresh(tape) && tape.Length == TAPE
    {
      this.program := program;
      tape := new Cell[TAPE];
      ptr, printed, taken := 0, [], 0;
    }

    predicate Valid()
      reads this, tape
    {
      tape.Length == TAPE && ptr < TAPE
    }

    function View(): Machine
      reads this, tape
    {
      Machine(tape[..], ptr, printed, taken)
    }

    method Clear()
      requires tape.Length == TAPE
      modifies this, tape
      ensures Valid() && View() == Blank()
    {
      for i := 0 to 256
        invariant forall k :: 0 <= k < i ==> tape[k] == 0
      {
        tape[i] := 0;
      }
      ptr, printed, taken := 0, [], 0;
    }

    method Execute(c: char, inp: Input)
      requires Valid()
      modifies this, tape
      ensures Valid() && View() == Exec(c, old(View()), inp)
    {
      if c == '>' {
        ptr := (ptr + 1) % TAPE;
      } else if c == '<' {
        ptr := (ptr + TAPE - 1) % TAPE;
      } else if c == '+' {
        tape[ptr] := Up(tape[ptr]);
      } else if c == '-' {
        tape[ptr] := Down(tape[ptr]);
      } else if c == '.' {
        printed := printed + [tape[ptr]];
      } else if c == ',' {
        tape[ptr] := inp(taken);
        taken := taken + 1;
      }
    }

    /** The scan from '[' at `pc`. */
    method FindClose(pc: nat, ghost s: string) returns (r: nat)
      requires |s| <= program.Length && s == program[..|s|] && pc < |s| && Forward(s, pc + 1, 1).Some?
      ensures r < |s| && Forward(s, pc + 1, 1) == Some(r)
    {
      r := pc;
      var depth: int := 1;
      while depth > 0
        invariant depth >= 0 && r < |s|
        invariant depth > 0 ==> Forward(s, pc + 1, 1) == Forward(s, r + 1, depth)
        invariant depth == 0 ==> Forward(s, pc + 1, 1) == Some(r)
        decreases |s| - r, depth
      {
        r := r + 1;
        if program[r] == '[' {
          depth := depth + 1;
        }
        if program[r] == ']' {
          depth := depth - 1;
        }
      }
    }

    /** The scan from ']' at `pc`. */
    method FindOpen(pc: nat, ghost s: string) returns (r: nat)
      requires |s| <= program.Length && s == program[..|s|] && pc < |s| && Backward(s, pc, 1).Some?
      ensures r < |s| && Backward(s, pc, 1) == Some(r)
    {
      r := pc;
      var depth: int := 1;
      while depth > 0
        invariant depth >= 0 && r < |s|
        invariant depth > 0 ==> Backward(s, pc, 1) == Backward(s, r, depth)
        invariant depth == 0 ==> Backward(s, pc, 1) == Some(r)
        decreases r, depth
      {
        r := r - 1;
        if program[r] == ']' {
          depth := depth + 1;
        }
        if program[r] == '[' {
          depth := depth - 1;
        }
      }
    }

    /** The main loop, for a program with matching brackets that ends, after `n` turns: it ends in
        the state that the program's structured meaning gives. */
    method Run(size: nat, inp: Input, ghost n: nat)
      requires Valid() && size <= program.Length && Balanced(program[..size])
      requires Halted(program[..size], Steps(program[..size], inp, At(0, Blank()), n))
      modifies this, tape
      ensures Valid() && MeansEnd(TreeOf(program[..size]), inp, Blank(), View())
    {
      hide Balanced;
      ghost var s := program[..size];
      Clear();
      var pc: nat := 0;
      ghost var left := n;
      while pc < size
        invariant Valid() && Steps(s, inp, At(0, Blank()), n) == Steps(s, inp, At(pc, View()), left)
        decreases left
      {
        assert s[pc] == program[pc] && s == program[..|s|];
        NotHaltedYet(s, inp, pc, View(), left);
        left := left - 1;
        NeverStuck(s, inp, At(pc, View()), 1);
        OneMore(s, inp, At(pc, View()), 1);
        var c := program[pc];
        if c == '[' {
          if tape[ptr] == 0 {
            pc := FindClose(pc, s);
          }
        } else if c == ']' {
          if tape[ptr] != 0 {
            pc := FindOpen(pc, s);
          }
        } else {
          Execute(c, inp);
        }
        pc := pc + 1;
      }
      HaltedStays(s, inp, At(pc, View()), left);
      MachineMeansTheTree(s, inp, Blank(), View());
    }
  }
}
