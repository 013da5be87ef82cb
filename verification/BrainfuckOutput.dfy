/** What the commands do to tape, output and input; what a run prints and takes; and two programs whose
    effect is worked out for every input. */
module BrainfuckOutput {
  import opened Brainfuck

  // ----- single steps -----

  /** Nothing but the output differs. */
  predicate SameButOutput(m: Machine, r: Machine) { r.tape == m.tape && r.ptr == m.ptr && r.taken == m.taken }

  /** Only the current cell differs, of tape and pointer. */
  predicate SameButCell(m: Machine, r: Machine)
    requires Ok(m)
  {
    && |r.tape| == |m.tape| && r.ptr == m.ptr
    && forall k :: 0 <= k < |m.tape| && k != m.ptr ==> r.tape[k] == m.tape[k]
  }

  /** A '.' puts the current cell behind everything printed before, and changes nothing else. */
  lemma DotPrints(s: string, inp: Input, pc: nat, m: Machine)
    requires Ok(m) && pc < |s| && s[pc] == '.'
    ensures var r := Step(s, inp, At(pc, m));
      && r.At? && r.pc == pc + 1 && SameButOutput(m, r.m)
      && |r.m.printed| == |m.printed| + 1 && r.m.printed[..|m.printed|] == m.printed
      && r.m.printed[|m.printed|] == m.tape[m.ptr]
  {
  }

  /** A ',' puts the next byte of the input into the current cell, and only there. */
  lemma CommaTakes(s: string, inp: Input, pc: nat, m: Machine)
    requires Ok(m) && pc < |s| && s[pc] == ','
    ensures var r := Step(s, inp, At(pc, m));
      && r.At? && r.pc == pc + 1 && SameButCell(m, r.m) && r.m.printed == m.printed
      && r.m.tape[m.ptr] == inp(m.taken) && r.m.taken == m.taken + 1
  {
  }

  /** The four others count modulo 256, on the current cell or on the pointer. */
  lemma CountersWrap(s: string, inp: Input, pc: nat, m: Machine)
    requires Ok(m) && pc < |s| && s[pc] in {'+', '-', '>', '<'}
    ensures var r, c, v: int := Step(s, inp, At(pc, m)), s[pc], m.tape[m.ptr];
      && r.At? && r.pc == pc + 1 && r.m.printed == m.printed && r.m.taken == m.taken
      && (c == '+' ==> SameButCell(m, r.m) && r.m.tape[m.ptr] == (v + 1) % 256)
      && (c == '-' ==> SameButCell(m, r.m) && r.m.tape[m.ptr] == (v + 255) % 256)
      && (c == '>' ==> r.m.tape == m.tape && r.m.ptr == (m.ptr + 1) % 256)
      && (c == '<' ==> r.m.tape == m.tape && r.m.ptr == (m.ptr + 255) % 256)
  {
  }

  /** A bracket changes the pc at most: '[' goes on when the current cell is not 0, ']' when it is; else
      they go behind the bracket that their scan finds. Every other character is passed over. */
  lemma OthersMoveThePc(s: string, inp: Input, pc: nat, m: Machine)
    requires Ok(m) && pc < |s| && s[pc] !in {'+', '-', '>', '<', '.', ','}
    ensures var r, c, zero := Step(s, inp, At(pc, m)), s[pc], m.tape[m.ptr] == 0;
      && (r.At? ==> r.m == m)
      && (c == '[' && !zero ==> r == At(pc + 1, m))
      && (c == '[' && zero ==>
            var j := Forward(s, pc + 1, 1); r == if j.None? then Stuck else At(j.value + 1, m))
      && (c == ']' && zero ==> r == At(pc + 1, m))
      && (c == ']' && !zero ==> var j := Backward(s, pc, 1); r == if j.None? then Stuck else At(j.value + 1, m))
      && (c != '[' && c != ']' ==> r == At(pc + 1, m))
  {
  }

  // ----- runs -----

  lemma StepGrows(s: string, inp: Input, c: Config)
    requires c.At? && Ok(c.m) && Step(s, inp, c).At?
    ensures var r := Step(s, inp, c);
      c.m.printed <= r.m.printed && c.m.taken <= r.m.taken <= c.m.taken + 1
  {
  }

  /** Over every run the output grows at its end only. */
  lemma {:induction false} OutputGrows(s: string, inp: Input, c: Config, n: nat)
    requires c.At? && Ok(c.m) && Steps(s, inp, c, n).At?
    ensures var r := Steps(s, inp, c, n); c.m.printed <= r.m.printed && c.m.taken <= r.m.taken
    decreases n
  {
    hide Step;
    if n > 0 {
      StuckStays(s, inp, Step(s, inp, c), n - 1);
      StepGrows(s, inp, c);
      OutputGrows(s, inp, Step(s, inp, c), n - 1);
    }
  }

  lemma {:induction false} StuckStays(s: string, inp: Input, c: Config, n: nat)
    requires c.At? ==> Ok(c.m)
    ensures c.Stuck? ==> Steps(s, inp, c, n).Stuck?
    decreases n
  {
    if n > 0 && c.Stuck? {
      StuckStays(s, inp, c, n - 1);
    }
  }

  /** The inputs agree from the byte number `lo` up to `hi`. */
  ghost predicate Agree(inp: Input, inp': Input, lo: nat, hi: nat) { forall k :: lo <= k < hi ==> inp(k) == inp'(k) }

  lemma StepTakes(s: string, inp: Input, inp': Input, c: Config)
    requires c.At? && Ok(c.m) && Step(s, inp, c).At? && Agree(inp, inp', c.m.taken, Step(s, inp, c).m.taken)
    ensures Step(s, inp', c) == Step(s, inp, c)
  {
  }

  /** A run depends on the bytes that it takes, and these are the next ones of the input, in order:
      inputs that agree there give the same run. */
  lemma {:induction false} OnlyTakenBytesMatter(s: string, inp: Input, inp': Input, c: Config, n: nat)
    requires c.At? && Ok(c.m) && Steps(s, inp, c, n).At?
    requires Agree(inp, inp', c.m.taken, Steps(s, inp, c, n).m.taken)
    ensures Steps(s, inp', c, n) == Steps(s, inp, c, n)
    decreases n
  {
    hide Step;
    if n > 0 {
      var c1 := Step(s, inp, c);
      StuckStays(s, inp, c1, n - 1);
      StepGrows(s, inp, c);
      OutputGrows(s, inp, c1, n - 1);
      StepTakes(s, inp, inp', c);
      OnlyTakenBytesMatter(s, inp, inp', c1, n - 1);
    }
  }

  lemma {:induction false} StepsAdd(s: string, inp: Input, c: Config, a: nat, b: nat)
    requires c.At? ==> Ok(c.m)
    ensures Steps(s, inp, c, a + b) == Steps(s, inp, Steps(s, inp, c, a), b)
    decreases a
  {
    hide Step;
    if a > 0 {
      StepsAdd(s, inp, Step(s, inp, c), a - 1, b);
    }
  }

  // ----- two programs -----

  /** "[-]" ends on every tape: the current cell is 0 and nothing else has changed. */
  lemma {:induction false} ClearLoopClears(inp: Input, m: Machine) returns (n: nat)
    requires Ok(m)
    ensures Steps("[-]", inp, At(0, m), n) == At(3, m.(tape := m.tape[m.ptr := 0]))
    decreases m.tape[m.ptr]
  {
    var s := "[-]";
    assert Forward(s, 1, 1) == Some(2) by {
      assert Forward(s, 2, 1) == Some(2);
    }
    if m.tape[m.ptr] == 0 {
      n := 1;
      assert m.tape[m.ptr := 0] == m.tape;
      assert Steps(s, inp, At(3, m), 0) == At(3, m);
    } else {
      n := LoopBodyClears(inp, m);
      n := n + 1;
    }
  }

  /** From the '-' on, with the current cell not 0. */
  lemma {:induction false} LoopBodyClears(inp: Input, m: Machine) returns (n: nat)
    requires Ok(m) && m.tape[m.ptr] != 0
    ensures Steps("[-]", inp, At(1, m), n) == At(3, m.(tape := m.tape[m.ptr := 0]))
    decreases m.tape[m.ptr]
  {
    var s := "[-]";
    var m1 := Exec('-', m, inp);
    assert Step(s, inp, At(1, m)) == At(2, m1);
    assert Backward(s, 2, 1) == Some(0) by {
      assert Backward(s, 1, 1) == Some(0);
    }
    if m1.tape[m.ptr] == 0 {
      n := 2;
      assert m1 == m.(tape := m.tape[m.ptr := 0]);
      assert Steps(s, inp, At(2, m1), 1) == Steps(s, inp, At(3, m1), 0);
    } else {
      var k := LoopBodyClears(inp, m1);
      n := k + 2;
      assert m1.tape[m.ptr := 0] == m.tape[m.ptr := 0];
      assert Step(s, inp, At(2, m1)) == At(1, m1);
      assert Steps(s, inp, At(1, m), n) == Steps(s, inp, At(2, m1), n - 1) == Steps(s, inp, At(1, m1), k);
    }
  }

  /** The bytes number `lo` up to `hi` of the input. */
  function Bytes(inp: Input, lo: nat, hi: nat): (r: seq<Cell>)
    requires lo <= hi
    ensures |r| == hi - lo && forall k :: 0 <= k < |r| ==> r[k] == inp(lo + k)
  {
    seq(hi - lo, k requires 0 <= k => inp(lo + k))
  }

  /** ",[.,]" copies its input up to the first 0: it ends having printed exactly these bytes, in their
      order, behind what was printed before. */
  lemma CatPrintsTheInput(inp: Input, m: Machine, end: nat) returns (n: nat)
    requires Ok(m) && m.taken <= end && inp(end) == 0 && forall k :: m.taken <= k < end ==> inp(k) != 0
    ensures var r := Steps(",[.,]", inp, At(0, m), n);
      && r.At? && r.pc == 5 && r.m.printed == m.printed + Bytes(inp, m.taken, end) && r.m.taken == end + 1
      && SameButCell(m, r.m) && r.m.tape[m.ptr] == 0
  {
    var s := ",[.,]";
    var m1 := Exec(',', m, inp);
    CatScans();
    assert Steps(s, inp, At(0, m), 1) == At(1, m1) by {
      assert Steps(s, inp, At(1, m1), 0) == At(1, m1);
    }
    if m.taken == end {
      n := 2;
      assert Steps(s, inp, At(0, m), 2) == Steps(s, inp, At(1, m1), 1) == Steps(s, inp, At(5, m1), 0);
      assert m.printed + Bytes(inp, m.taken, end) == m.printed;
    } else {
      var k := CatTurns(inp, m1, end);
      n := 2 + k;
      assert Steps(s, inp, At(0, m), n) == Steps(s, inp, At(1, m1), k + 1) == Steps(s, inp, At(2, m1), k);
    }
  }

  /** From the '.' on: the current cell is the last byte taken, and not 0. */
  lemma {:induction false} CatTurns(inp: Input, m: Machine, end: nat) returns (n: nat)
    requires Ok(m) && 0 < m.taken <= end && m.tape[m.ptr] == inp(m.taken - 1)
    requires inp(end) == 0 && forall k :: m.taken - 1 <= k < end ==> inp(k) != 0
    ensures var r := Steps(",[.,]", inp, At(2, m), n);
      && r.At? && r.pc == 5 && r.m.printed == m.printed + Bytes(inp, m.taken - 1, end) && r.m.taken == end + 1
      && SameButCell(m, r.m) && r.m.tape[m.ptr] == 0
    decreases end - m.taken
  {
    var s := ",[.,]";
    CatTurn(inp, m);
    var m1 := Exec(',', Exec('.', m, inp), inp);
    var b := Bytes(inp, m.taken - 1, end);
    assert b == [b[0]] + Bytes(inp, m.taken, end);
    assert m.printed + b == (m.printed + [b[0]]) + Bytes(inp, m.taken, end);
    if m.taken == end {
      n := 3;
    } else {
      var k := CatTurns(inp, m1, end);
      n := 3 + k;
      StepsAdd(s, inp, At(2, m), 3, k);
    }
  }

  lemma CatScans()
    ensures Forward(",[.,]", 2, 1) == Some(4) && Backward(",[.,]", 4, 1) == Some(1)
  {
    var s := ",[.,]";
    assert Forward(s, 4, 1) == Some(4) && Forward(s, 3, 1) == Some(4);
    assert Backward(s, 2, 1) == Some(1) && Backward(s, 3, 1) == Some(1);
  }

  /** '.', ',' and the test of ']'. */
  lemma CatTurn(inp: Input, m: Machine)
    requires Ok(m)
    ensures var m1 := Exec(',', Exec('.', m, inp), inp);
      Steps(",[.,]", inp, At(2, m), 3) == At(if m1.tape[m.ptr] == 0 then 5 else 2, m1)
  {
    var s, m0 := ",[.,]", Exec('.', m, inp);
    var m1 := Exec(',', m0, inp);
    CatScans();
    hide Exec, Forward, Backward;
    assert Step(s, inp, At(2, m)) == At(3, m0) && Step(s, inp, At(3, m0)) == At(4, m1);
    var c := Step(s, inp, At(4, m1));
    assert Steps(s, inp, At(2, m), 3) == Steps(s, inp, At(3, m0), 2);
    assert Steps(s, inp, At(3, m0), 2) == Steps(s, inp, At(4, m1), 1) == Steps(s, inp, c, 0);
    PointerStays(inp, m);
  }

  lemma PointerStays(inp: Input, m: Machine)
    requires Ok(m)
    ensures Exec(',', Exec('.', m, inp), inp).ptr == m.ptr
  {
  }
}
