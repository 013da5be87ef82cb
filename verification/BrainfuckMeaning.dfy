/** The pc machine and the structured meaning agree on every program with matching brackets: one
    ends exactly when the other does, in the same state. */
module BrainfuckMeaning {
  import opened Brainfuck

  lemma {:induction false} StepsAdd(s: string, inp: Input, c: Config, m: nat, n: nat)
    requires c.At? ==> Ok(c.m)
    ensures Steps(s, inp, c, m + n) == Steps(s, inp, Steps(s, inp, c, m), n)
    decreases m
  {
    hide Step;
    if m > 0 {
      StepsAdd(s, inp, Step(s, inp, c), m - 1, n);
    }
  }

  /** The first step at a command, at '[' and at ']'. */
  lemma FirstStep(s: string, inp: Input, k: nat, p: Program, m: Machine)
    requires Ok(m) && Proper(p) && TextAt(s, k, p) && !p.Done?
    ensures p.Basic? ==> Step(s, inp, At(k, m)) == At(k + 1, Exec(p.c, m, inp))
    ensures p.Loop? && Nonzero(m) ==> Step(s, inp, At(k, m)) == At(k + 1, m) == Step(s, inp, At(CloseOf(k, p), m))
    ensures p.Loop? && !Nonzero(m) ==>
      Step(s, inp, At(k, m)) == At(CloseOf(k, p) + 1, m) == Step(s, inp, At(CloseOf(k, p), m))
  {
    if p.Basic? {
      BasicAt(s, k, p);
    } else {
      LoopAt(s, k, p);
      LoopScans(s, k, p);
    }
  }

  // ----- the structured meaning is reached -----

  /** From the start of a subprogram's text the machine gets to its end, in the state the
      structured meaning gives; the result is the number of steps. */
  lemma {:induction false} MachineFollows(s: string, inp: Input, k: nat, p: Program, m: Machine, fuel: nat)
    returns (n: nat)
    requires Ok(m) && Proper(p) && TextAt(s, k, p) && Eval(p, m, inp, fuel).Some?
    ensures Steps(s, inp, At(k, m), n) == At(k + |Text(p)|, Eval(p, m, inp, fuel).value)
    decreases fuel, p
  {
    hide TextAt, Step, Steps, Proper, Text;
    if p.Done? {
      n := 0;
      EmptyRun(s, inp, k, m);
    } else {
      FirstStep(s, inp, k, p, m);
      if p.Basic? {
        BasicAt(s, k, p);
        ProperParts(p);
        n := MachineFollows(s, inp, k + 1, p.rest, Exec(p.c, m, inp), fuel);
        n := n + 1;
        OneMore(s, inp, At(k, m), n);
      } else {
        LoopAt(s, k, p);
        ProperParts(p);
        if !Nonzero(m) {
          n := MachineFollows(s, inp, CloseOf(k, p) + 1, p.rest, m, fuel);
          n := n + 1;
          OneMore(s, inp, At(k, m), n);
        } else {
          var once := Eval(p.body, m, inp, fuel - 1).value;
          var a := MachineFollows(s, inp, k + 1, p.body, m, fuel - 1);
          var b := MachineFollows(s, inp, k, p, once, fuel - 1);
          FirstStep(s, inp, k, p, once);
          n := AroundTheLoop(s, inp, k, p, m, once, a, b);
        }
      }
    }
  }

  lemma EmptyRun(s: string, inp: Input, k: nat, m: Machine)
    requires Ok(m)
    ensures Steps(s, inp, At(k, m), 0) == At(k, m) && |Text(Done)| == 0
  {
  }

  lemma ProperParts(p: Program)
    requires Proper(p)
    ensures p.Basic? ==> Proper(p.rest) && !Bracket(p.c)
    ensures p.Loop? ==> Proper(p.body) && Proper(p.rest)
  {
  }

  lemma OneMore(s: string, inp: Input, c: Config, n: nat)
    requires n > 0 && (c.At? ==> Ok(c.m))
    ensures Steps(s, inp, c, n) == Steps(s, inp, Step(s, inp, c), n - 1)
  {
  }

  /** One turn of a loop from its '[' back to its ']', and then on as if from the '[' again. */
  lemma AroundTheLoop(s: string, inp: Input, k: nat, p: Program, m: Machine, once: Machine, a: nat, b: nat)
    returns (n: nat)
    requires Ok(m) && Ok(once) && p.Loop? && TextAt(s, k, p)
    requires Step(s, inp, At(k, m)) == At(k + 1, m)
    requires Steps(s, inp, At(k + 1, m), a) == At(CloseOf(k, p), once)
    requires Step(s, inp, At(k, once)) == Step(s, inp, At(CloseOf(k, p), once))
    requires Steps(s, inp, At(k, once), b) != At(k, once) || b > 0
    ensures Steps(s, inp, At(k, m), n) == Steps(s, inp, At(k, once), b)
    ensures n == a + b + 1
  {
    hide TextAt, Step;
    n := 1 + a + b;
    StepsAdd(s, inp, At(k + 1, m), a, b);
    OneMore(s, inp, At(k, m), n);
    if b > 0 {
      OneMore(s, inp, At(k, once), b);
      OneMore(s, inp, At(CloseOf(k, p), once), b);
    }
  }

  // ----- nothing else is reached -----

  lemma {:induction false} MoreFuel(p: Program, m: Machine, inp: Input, fuel: nat, more: nat)
    requires Ok(m) && fuel <= more && Eval(p, m, inp, fuel).Some?
    ensures Eval(p, m, inp, more) == Eval(p, m, inp, fuel)
    decreases fuel, p
  {
    match p
    case Done =>
    case Basic(c, rest) => MoreFuel(rest, Exec(c, m, inp), inp, fuel, more);
    case Loop(body, rest) =>
      if !Nonzero(m) {
        MoreFuel(rest, m, inp, fuel, more);
      } else {
        MoreFuel(body, m, inp, fuel - 1, more - 1);
        MoreFuel(p, Eval(body, m, inp, fuel - 1).value, inp, fuel - 1, more - 1);
      }
  }

  predicate Halted(s: string, c: Config) { c.At? && c.pc >= |s| }

  /** What a run from the start of a subprogram's text that halts says about the subprogram. */
  ghost predicate Follows(s: string, inp: Input, k: nat, p: Program, m: Machine, n: nat, fuel: nat, a: nat)
    requires Ok(m)
  {
    var r := Eval(p, m, inp, fuel);
    r.Some? && a <= n && Steps(s, inp, At(k, m), a) == At(k + |Text(p)|, r.value)
  }

  /** If the machine halts from the start of a subprogram's text, the structured meaning ends too,
      and the machine has passed the end of the text in that state. */
  lemma {:induction false} TreeFollows(s: string, inp: Input, k: nat, p: Program, m: Machine, n: nat)
    returns (fuel: nat, a: nat)
    requires Ok(m) && Proper(p) && TextAt(s, k, p) && Halted(s, Steps(s, inp, At(k, m), n))
    ensures Follows(s, inp, k, p, m, n, fuel, a)
    decreases n, p
  {
    hide TextAt, Step, Steps, Proper, Text;
    if p.Done? {
      fuel, a := 0, 0;
      EmptyRun(s, inp, k, m);
    } else {
      FirstStep(s, inp, k, p, m);
      ProperParts(p);
      if p.Basic? {
        BasicAt(s, k, p);
        NotHaltedYet(s, inp, k, m, n);
        fuel, a := TreeFollows(s, inp, k + 1, p.rest, Exec(p.c, m, inp), n - 1);
        a := a + 1;
        OneMore(s, inp, At(k, m), a);
      } else {
        LoopAt(s, k, p);
        NotHaltedYet(s, inp, k, m, n);
        if !Nonzero(m) {
          fuel, a := TreeFollows(s, inp, CloseOf(k, p) + 1, p.rest, m, n - 1);
          a := a + 1;
          OneMore(s, inp, At(k, m), a);
        } else {
          var f1, a1 := TreeFollows(s, inp, k + 1, p.body, m, n - 1);
          var once := Eval(p.body, m, inp, f1).value;
          FirstStep(s, inp, k, p, once);
          RestOfTheRun(s, inp, k, p, m, once, n, a1);
          var f2, a2 := TreeFollows(s, inp, k, p, once, n - 1 - a1);
          fuel := 1 + (if f1 < f2 then f2 else f1);
          MoreFuel(p.body, m, inp, f1, fuel - 1);
          MoreFuel(p, once, inp, f2, fuel - 1);
          a := AroundTheLoop(s, inp, k, p, m, once, a1, a2);
        }
      }
    }
  }

  lemma NotHaltedYet(s: string, inp: Input, k: nat, m: Machine, n: nat)
    requires Ok(m) && k < |s| && Halted(s, Steps(s, inp, At(k, m), n))
    ensures n > 0 && Steps(s, inp, At(k, m), n) == Steps(s, inp, Step(s, inp, At(k, m)), n - 1)
  {
  }

  /** After one turn of a loop the rest of the run is also the run from its '['. */
  lemma RestOfTheRun(s: string, inp: Input, k: nat, p: Program, m: Machine, once: Machine, n: nat, a: nat)
    requires Ok(m) && Ok(once) && p.Loop? && CloseOf(k, p) < |s| && n > 0 && a <= n - 1
    requires Halted(s, Steps(s, inp, At(k + 1, m), n - 1))
    requires Steps(s, inp, At(k + 1, m), a) == At(CloseOf(k, p), once)
    requires Step(s, inp, At(k, once)) == Step(s, inp, At(CloseOf(k, p), once))
    ensures Halted(s, Steps(s, inp, At(k, once), n - 1 - a))
  {
    hide Step;
    StepsAdd(s, inp, At(k + 1, m), a, n - 1 - a);
    NotHaltedYet(s, inp, CloseOf(k, p), once, n - 1 - a);
    OneMore(s, inp, At(k, once), n - 1 - a);
  }

  lemma {:induction false} HaltedStays(s: string, inp: Input, c: Config, n: nat)
    requires Halted(s, c) && Ok(c.m)
    ensures Steps(s, inp, c, n) == c
    decreases n
  {
    if n > 0 {
      HaltedStays(s, inp, c, n - 1);
    }
  }

  // ----- the main result -----

  ghost predicate MachineEnds(s: string, inp: Input, m: Machine, r: Machine)
    requires Ok(m)
  {
    exists n :: Steps(s, inp, At(0, m), n) == At(|s|, r)
  }

  ghost predicate MeansEnd(p: Program, inp: Input, m: Machine, r: Machine)
    requires Ok(m)
  {
    exists fuel :: Eval(p, m, inp, fuel) == Some(r)
  }

  /** For every tree, input and start: the machine ends in a state exactly when the structured
      meaning does; wherever it ends, it ends right behind the program. */
  lemma MachineMeans(p: Program, inp: Input, m: Machine, r: Machine)
    requires Proper(p) && Ok(m)
    ensures MachineEnds(Text(p), inp, m, r) <==> MeansEnd(p, inp, m, r)
    ensures var s := Text(p);
      forall n :: Halted(s, Steps(s, inp, At(0, m), n)) ==> Steps(s, inp, At(0, m), n).pc == |s|
  {
    var s := Text(p);
    hide Steps, Eval, Text;
    if fuel :| Eval(p, m, inp, fuel) == Some(r) {
      var n := MachineFollows(s, inp, 0, p, m, fuel);
    }
    forall n | Halted(s, Steps(s, inp, At(0, m), n))
      ensures exists fuel ::
                Eval(p, m, inp, fuel).Some? && Steps(s, inp, At(0, m), n) == At(|s|, Eval(p, m, inp, fuel).value)
    {
      var fuel, a := TreeFollows(s, inp, 0, p, m, n);
      StepsAdd(s, inp, At(0, m), a, n - a);
      HaltedStays(s, inp, Steps(s, inp, At(0, m), a), n - a);
    }
    if n :| Steps(s, inp, At(0, m), n) == At(|s|, r) {
      assert Halted(s, Steps(s, inp, At(0, m), n));
    }
  }

  /** Hence for every program with matching brackets. */
  lemma MachineMeansTheTree(s: string, inp: Input, m: Machine, r: Machine)
    requires Balanced(s) && Ok(m)
    ensures MachineEnds(s, inp, m, r) <==> MeansEnd(TreeOf(s), inp, m, r)
    ensures forall n :: Halted(s, Steps(s, inp, At(0, m), n)) ==> Steps(s, inp, At(0, m), n).pc == |s|
  {
    MachineMeans(TreeOf(s), inp, m, r);
  }

  /** No run of such a program gets stuck. */
  lemma {:induction false} NeverStuck(s: string, inp: Input, c: Config, n: nat)
    requires Balanced(s) && c.At? && Ok(c.m)
    ensures Steps(s, inp, c, n).At?
    decreases n
  {
    if n > 0 {
      if c.pc < |s| {
        ScansAreInverse(s, c.pc);
      }
      NeverStuck(s, inp, Step(s, inp, c), n - 1);
    }
  }

  // ----- commands that undo each other -----

  predicate Undoes(c: char, d: char) {
    (c == '+' && d == '-') || (c == '-' && d == '+') || (c == '<' && d == '>') || (c == '>' && d == '<')
  }

  /** The program without adjacent commands that undo each other, also those that become adjacent. */
  function Cancelled(p: Program): (r: Program)
    ensures Proper(p) ==> Proper(r)
    ensures |Text(r)| <= |Text(p)|
  {
    match p
    case Done => Done
    case Loop(body, rest) => Loop(Cancelled(body), Cancelled(rest))
    case Basic(c, rest) =>
      var r := Cancelled(rest);
      if r.Basic? && Undoes(c, r.c) then r.rest else Basic(c, r)
  }

  lemma {:induction false} CancelledMeansTheSame(p: Program, m: Machine, inp: Input, fuel: nat)
    requires Ok(m)
    ensures Eval(Cancelled(p), m, inp, fuel) == Eval(p, m, inp, fuel)
    decreases fuel, p
  {
    match p
    case Done =>
    case Basic(c, rest) =>
      CommandsUndo(m, inp);
      CancelledMeansTheSame(rest, Exec(c, m, inp), inp, fuel);
    case Loop(body, rest) =>
      if !Nonzero(m) {
        CancelledMeansTheSame(rest, m, inp, fuel);
      } else if fuel > 0 {
        CancelledMeansTheSame(body, m, inp, fuel - 1);
        var once := Eval(body, m, inp, fuel - 1);
        if once.Some? {
          CancelledMeansTheSame(p, once.value, inp, fuel - 1);
        }
      }
  }

  /** The interpreter ends in the same states on the shorter program. */
  lemma CancellingKeepsTheOutcome(s: string, inp: Input, m: Machine, r: Machine)
    requires Balanced(s) && Ok(m)
    ensures var s' := Text(Cancelled(TreeOf(s)));
      && Balanced(s') && |s'| <= |s|
      && (MachineEnds(s', inp, m, r) <==> MachineEnds(s, inp, m, r))
  {
    var p := TreeOf(s);
    BalancedIsATree(Text(Cancelled(p)));
    MachineMeans(p, inp, m, r);
    MachineMeans(Cancelled(p), inp, m, r);
    forall fuel: nat
      ensures Eval(Cancelled(p), m, inp, fuel) == Eval(p, m, inp, fuel)
    {
      CancelledMeansTheSame(p, m, inp, fuel);
    }
  }
}
