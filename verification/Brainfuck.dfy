/** The Brainfuck interpreter (bf.c): its pc machine with bracket scans, and programs as trees
    with a structured meaning. */
module Brainfuck {
  type Cell = x: int | 0 <= x < 256
  const TAPE: nat := 256

  datatype Option<T> = None | Some(value: T)

  /** The interpreter's variables but the pc; `taken` counts the bytes taken from the input. */
  datatype Machine = Machine(tape: seq<Cell>, ptr: nat, printed: seq<Cell>, taken: nat)

  predicate Ok(m: Machine) { |m.tape| == TAPE && m.ptr < TAPE }

  function Blank(): Machine { Machine(seq(TAPE, i => 0), 0, [], 0) }

  type Input = nat -> Cell

  predicate Nonzero(m: Machine)
    requires Ok(m)
  {
    m.tape[m.ptr] != 0
  }

  /** The six commands without a jump; every other character does nothing. */
  function Exec(c: char, m: Machine, inp: Input): (r: Machine)
    requires Ok(m)
    ensures Ok(r)
  {
    match c
    case '>' => m.(ptr := (m.ptr + 1) % TAPE)
    case '<' => m.(ptr := (m.ptr + TAPE - 1) % TAPE)
    case '+' => m.(tape := m.tape[m.ptr := Up(m.tape[m.ptr])])
    case '-' => m.(tape := m.tape[m.ptr := Down(m.tape[m.ptr])])
    case '.' => m.(printed := m.printed + [m.tape[m.ptr]])
    case ',' => m.(tape := m.tape[m.ptr := inp(m.taken)], taken := m.taken + 1)
    case _ => m
  }

  function Up(c: Cell): Cell { if c == 255 then 0 else c + 1 }

  function Down(c: Cell): Cell { if c == 0 then 255 else c - 1 }

  /** The commands come in pairs that undo each other, wrap-around included. */
  lemma CommandsUndo(m: Machine, inp: Input)
    requires Ok(m)
    ensures Exec('-', Exec('+', m, inp), inp) == m && Exec('+', Exec('-', m, inp), inp) == m
    ensures Exec('<', Exec('>', m, inp), inp) == m && Exec('>', Exec('<', m, inp), inp) == m
    ensures Exec('+', m, inp).tape[m.ptr] != m.tape[m.ptr] && Exec('>', m, inp).ptr != m.ptr
    ensures m.tape[m.ptr] < 255 ==> Exec('+', m, inp).tape[m.ptr] == m.tape[m.ptr] + 1
    ensures m.ptr < 255 ==> Exec('>', m, inp).ptr == m.ptr + 1
  {
    var t := m.tape;
    assert t[m.ptr := Up(t[m.ptr])][m.ptr := Down(Up(t[m.ptr]))] == t;
    assert t[m.ptr := Down(t[m.ptr])][m.ptr := Up(Down(t[m.ptr]))] == t;
  }

  // ----- the pc machine -----

  predicate Bracket(c: char) { c == '[' || c == ']' }

  /** The scan of '[': `k` is the next place to look at. None if it leaves the program. */
  function Forward(s: string, k: nat, depth: nat): Option<nat>
    requires depth > 0
    decreases |s| - k
  {
    if k >= |s| then None
    else if s[k] == '[' then Forward(s, k + 1, depth + 1)
    else if s[k] == ']' then if depth == 1 then Some(k) else Forward(s, k + 1, depth - 1)
    else Forward(s, k + 1, depth)
  }

  /** The scan of ']': `k - 1` is the next place to look at. */
  function Backward(s: string, k: nat, depth: nat): Option<nat>
    requires depth > 0 && k <= |s|
    decreases k
  {
    if k == 0 then None
    else if s[k - 1] == ']' then Backward(s, k - 1, depth + 1)
    else if s[k - 1] == '[' then if depth == 1 then Some(k - 1) else Backward(s, k - 1, depth - 1)
    else Backward(s, k - 1, depth)
  }

  datatype Config = At(pc: nat, m: Machine) | Stuck

  /** One turn of the main loop; Stuck when a scan leaves the program. */
  function Step(s: string, inp: Input, c: Config): (r: Config)
    requires c.At? ==> Ok(c.m)
    ensures r.At? ==> Ok(r.m)
  {
    if c.Stuck? || c.pc >= |s| then c
    else if s[c.pc] == '[' then
      if Nonzero(c.m) then At(c.pc + 1, c.m)
      else
        var j := Forward(s, c.pc + 1, 1);
        if j.Some? then At(j.value + 1, c.m) else Stuck
    else if s[c.pc] == ']' then
      if !Nonzero(c.m) then At(c.pc + 1, c.m)
      else
        var j := Backward(s, c.pc, 1);
        if j.Some? then At(j.value + 1, c.m) else Stuck
    else At(c.pc + 1, Exec(s[c.pc], c.m, inp))
  }

  function Steps(s: string, inp: Input, c: Config, n: nat): (r: Config)
    requires c.At? ==> Ok(c.m)
    ensures r.At? ==> Ok(r.m)
    decreases n
  {
    if n == 0 then c else Steps(s, inp, Step(s, inp, c), n - 1)
  }

  // ----- programs as trees -----

  datatype Program = Done | Basic(c: char, rest: Program) | Loop(body: Program, rest: Program)

  predicate Proper(p: Program) {
    match p
    case Done => true
    case Basic(c, rest) => !Bracket(c) && Proper(rest)
    case Loop(body, rest) => Proper(body) && Proper(rest)
  }

  function Text(p: Program): string {
    match p
    case Done => ""
    case Basic(c, rest) => [c] + Text(rest)
    case Loop(body, rest) => "[" + Text(body) + "]" + Text(rest)
  }

  /** The structured meaning: a loop runs its body while the cell is not zero. `fuel` bounds the
      nesting of turns; None when it does not suffice. */
  function Eval(p: Program, m: Machine, inp: Input, fuel: nat): (r: Option<Machine>)
    requires Ok(m)
    ensures r.Some? ==> Ok(r.value)
    decreases fuel, p
  {
    match p
    case Done => Some(m)
    case Basic(c, rest) => Eval(rest, Exec(c, m, inp), inp, fuel)
    case Loop(body, rest) =>
      if !Nonzero(m) then Eval(rest, m, inp, fuel)
      else if fuel == 0 then None
      else
        var once := Eval(body, m, inp, fuel - 1);
        if once.None? then None else Eval(p, once.value, inp, fuel - 1)
  }

  // ----- reading a tree from a text -----

  /** Brackets match when `depth` of them are open already. */
  predicate Closes(s: string, depth: nat) {
    if s == "" then depth == 0
    else if s[0] == '[' then Closes(s[1..], depth + 1)
    else if s[0] == ']' then depth > 0 && Closes(s[1..], depth - 1)
    else Closes(s[1..], depth)
  }

  predicate Balanced(s: string) { Closes(s, 0) }

  datatype Parsed = Parsed(program: Program, rest: string) | Unmatched

  /** Reads up to the first ']' that closes nothing, or to the end. */
  function Parse(s: string): (r: Parsed)
    ensures r.Parsed? ==> |r.rest| <= |s|
    decreases |s|
  {
    if s == "" || s[0] == ']' then Parsed(Done, s)
    else if s[0] == '[' then
      var body := Parse(s[1..]);
      if body.Unmatched? || body.rest == "" then Unmatched
      else
        var rest := Parse(body.rest[1..]);
        if rest.Unmatched? then Unmatched else Parsed(Loop(body.program, rest.program), rest.rest)
    else
      var rest := Parse(s[1..]);
      if rest.Unmatched? then Unmatched else Parsed(Basic(s[0], rest.program), rest.rest)
  }

  ghost predicate WellRead(s: string, depth: nat, r: Parsed) {
    && r.Parsed? && Proper(r.program) && s == Text(r.program) + r.rest
    && Closes(r.rest, depth) && (r.rest != "" ==> r.rest[0] == ']')
  }

  lemma {:induction false} ParseReads(s: string, depth: nat)
    requires Closes(s, depth)
    ensures WellRead(s, depth, Parse(s))
    decreases |s|
  {
    if s == "" || s[0] == ']' {
      assert Text(Done) + s == s;
    } else if s[0] == '[' {
      ParseReads(s[1..], depth + 1);
      var body := Parse(s[1..]);
      assert body.rest != "" && Closes(body.rest[1..], depth);
      ParseReads(body.rest[1..], depth);
      var rest := Parse(body.rest[1..]);
      LoopText(s, body.program, rest.program, body.rest, rest.rest);
    } else {
      ParseReads(s[1..], depth);
      assert s == [s[0]] + s[1..];
    }
  }

  lemma LoopText(s: string, body: Program, rest: Program, s1: string, s2: string)
    requires s != "" && s[0] == '[' && s[1..] == Text(body) + s1
    requires s1 != "" && s1[0] == ']' && s1[1..] == Text(rest) + s2
    ensures s == Text(Loop(body, rest)) + s2
  {
    assert s == "[" + s[1..] && s1 == "]" + s1[1..];
    Regrouped("[", Text(body), "]", Text(rest), s2);
    assert s == "[" + (Text(body) + ("]" + (Text(rest) + s2)));
    assert Text(Loop(body, rest)) == "[" + Text(body) + "]" + Text(rest);
  }

  lemma Regrouped(a: string, b: string, c: string, d: string, e: string)
    ensures a + (b + (c + (d + e))) == (a + b + c + d) + e
  {
    assert c + (d + e) == (c + d) + e;
    assert b + ((c + d) + e) == (b + (c + d)) + e;
    assert a + ((b + (c + d)) + e) == (a + (b + (c + d))) + e;
    assert a + (b + (c + d)) == a + b + c + d;
  }

  lemma {:induction false} TextCloses(p: Program, tail: string, depth: nat)
    requires Proper(p)
    ensures Closes(Text(p) + tail, depth) <==> Closes(tail, depth)
    decreases p
  {
    match p
    case Done =>
      assert Text(p) + tail == tail;
    case Basic(c, rest) =>
      assert (Text(p) + tail)[1..] == Text(rest) + tail;
      TextCloses(rest, tail, depth);
    case Loop(body, rest) =>
      var more := "]" + (Text(rest) + tail);
      assert (Text(p) + tail)[1..] == Text(body) + more;
      assert more[1..] == Text(rest) + tail;
      TextCloses(body, more, depth + 1);
      TextCloses(rest, tail, depth);
  }

  /** A text has matching brackets exactly when it is the text of a tree. */
  lemma BalancedIsATree(s: string)
    ensures Balanced(s) <==> exists p :: Proper(p) && Text(p) == s
    ensures Balanced(s) ==> Parse(s).Parsed? && Proper(Parse(s).program) && Text(Parse(s).program) == s
  {
    if Balanced(s) {
      ParseReads(s, 0);
      var r := Parse(s);
      assert r.rest == "";
      assert Text(r.program) + "" == Text(r.program);
    }
    if p :| Proper(p) && Text(p) == s {
      TextCloses(p, "", 0);
      assert Text(p) + "" == s;
    }
  }

  /** The tree of a program. */
  function TreeOf(s: string): (p: Program)
    requires Balanced(s)
    ensures Proper(p) && Text(p) == s
  {
    BalancedIsATree(s);
    Parse(s).program
  }

  // ----- the scans -----

  /** The text of `p` stands at place `k`. */
  ghost predicate TextAt(s: string, k: nat, p: Program) { k + |Text(p)| <= |s| && s[k..k + |Text(p)|] == Text(p) }

  lemma BasicAt(s: string, k: nat, p: Program)
    requires TextAt(s, k, p) && p.Basic?
    ensures k < |s| && s[k] == p.c && TextAt(s, k + 1, p.rest)
    ensures |Text(p)| == 1 + |Text(p.rest)|
  {
    var t := s[k..k + |Text(p)|];
    assert t[0] == p.c && t[1..] == Text(p.rest);
  }

  /** The place of the closing bracket of the loop at `k`. */
  function CloseOf(k: nat, p: Program): nat
    requires p.Loop?
  {
    k + 1 + |Text(p.body)|
  }

  lemma LoopAt(s: string, k: nat, p: Program)
    requires TextAt(s, k, p) && p.Loop?
    ensures CloseOf(k, p) < |s| && s[k] == '[' && s[CloseOf(k, p)] == ']'
    ensures TextAt(s, k + 1, p.body) && TextAt(s, CloseOf(k, p) + 1, p.rest)
    ensures |Text(p)| == 2 + |Text(p.body)| + |Text(p.rest)|
  {
    var b, r := Text(p.body), Text(p.rest);
    assert Text(p) == "[" + b + "]" + r;
    TextLength(b, r);
    SliceLoop(s, k, b, r);
  }

  lemma TextLength(b: string, r: string)
    ensures |"[" + b + "]" + r| == 2 + |b| + |r|
  {
  }

  lemma SliceLoop(s: string, k: nat, b: string, r: string)
    requires k + 2 + |b| + |r| <= |s| && s[k..k + 2 + |b| + |r|] == "[" + b + "]" + r
    ensures s[k] == '[' && s[k + 1..k + 1 + |b|] == b && s[k + 1 + |b|] == ']'
    ensures s[k + 2 + |b|..k + 2 + |b| + |r|] == r
  {
    var t, u, n := "[" + b + "]" + r, s[k..k + 2 + |b| + |r|], |b|;
    assert s[k] == u[0] && s[k + 1 + n] == u[1 + n];
    assert t[1 + n] == ']';
    assert t[1..1 + n] == b && t[2 + n..] == r;
    SubSlice(s, k, |u|, 1, 1 + n);
    SubSlice(s, k, |u|, 2 + n, |u|);
  }

  lemma SubSlice(s: string, k: nat, n: nat, i: nat, j: nat)
    requires i <= j <= n && k + n <= |s|
    ensures s[k..k + n][i..j] == s[k + i..k + j]
  {
    var u := s[k..k + n];
    forall x | 0 <= x < j - i
      ensures u[i..j][x] == s[k + i..k + j][x]
    {
      assert u[i..j][x] == u[i + x];
    }
  }

  /** Both scans pass over a whole tree without changing their depth. */
  lemma {:induction false} ScansPassOver(s: string, k: nat, p: Program, depth: nat)
    requires Proper(p) && depth > 0 && TextAt(s, k, p)
    ensures Forward(s, k, depth) == Forward(s, k + |Text(p)|, depth)
    ensures Backward(s, k + |Text(p)|, depth) == Backward(s, k, depth)
    decreases p
  {
    hide TextAt;
    match p
    case Done =>
    case Basic(c, rest) =>
      BasicAt(s, k, p);
      ScansPassOver(s, k + 1, rest, depth);
    case Loop(body, rest) =>
      LoopAt(s, k, p);
      ScansPassOver(s, k + 1, body, depth + 1);
      ScansPassOver(s, CloseOf(k, p) + 1, rest, depth);
  }

  /** From either bracket of a loop the scan stops at the other. */
  lemma LoopScans(s: string, k: nat, p: Program)
    requires Proper(p) && p.Loop? && TextAt(s, k, p)
    ensures CloseOf(k, p) < |s| && Forward(s, k + 1, 1) == Some(CloseOf(k, p))
    ensures Backward(s, CloseOf(k, p), 1) == Some(k)
  {
    LoopAt(s, k, p);
    hide TextAt;
    ScansPassOver(s, k + 1, p.body, 1);
  }

  /** What the scans do from place `i`: from '[' forward to a ']' whose backward scan comes back,
      and the other way round; other places are not brackets. */
  predicate Matched(s: string, i: nat)
    requires i < |s|
  {
    if s[i] == '[' then
      var j := Forward(s, i + 1, 1);
      j.Some? && i < j.value < |s| && s[j.value] == ']' && Backward(s, j.value, 1) == Some(i)
    else if s[i] == ']' then
      var j := Backward(s, i, 1);
      j.Some? && j.value < i && s[j.value] == '[' && Forward(s, j.value + 1, 1) == Some(i)
    else true
  }

  lemma {:induction false} PlacesMatch(s: string, k: nat, p: Program, i: nat)
    requires Proper(p) && TextAt(s, k, p) && k <= i < k + |Text(p)|
    ensures Matched(s, i)
    decreases p
  {
    hide TextAt, Forward, Backward;
    match p
    case Done =>
    case Basic(c, rest) =>
      BasicAt(s, k, p);
      if i > k {
        PlacesMatch(s, k + 1, rest, i);
      }
    case Loop(body, rest) =>
      LoopAt(s, k, p);
      LoopScans(s, k, p);
      if k < i < CloseOf(k, p) {
        PlacesMatch(s, k + 1, body, i);
      } else if i > CloseOf(k, p) {
        PlacesMatch(s, CloseOf(k, p) + 1, rest, i);
      }
  }

  /** In a program with matching brackets the two scans are inverse to each other and never leave
      the program. */
  lemma ScansAreInverse(s: string, i: nat)
    requires Balanced(s) && i < |s|
    ensures Matched(s, i)
  {
    PlacesMatch(s, 0, TreeOf(s), i);
  }
}
