/**
  The main loop of `cn_slow_hash` (`cryptonight/src/slow_hash.rs`), in place and shared by all variants,
  against the definitions of the variants in `SlowHash`.
*/
module SlowHashLoop {
  import opened Bytes
  import opened RandomMathProgram
  import opened RandomMathInterpreter
  import opened SlowHash

  // ----- One iteration -----

  function Tweak1<B, M>(ops: Ops<B, M>, v: Variant, x: B): B {
    if v == V1 then ops.tweak1(x) else x
  }

  function Tweak2<B, M>(ops: Ops<B, M>, v: Variant, x: B): B {
    if v == V1 then ops.tweak2(x) else x
  }

  /** Lines 306-312: the scratchpad and `c1` after the first access. */
  function FirstHalf<B(!new), M>(v: Variant, ops: Ops<B, M>, ls: seq<B>, a: B, b0: B, b1: B): (p: (seq<B>, B))
    requires Lawful(ops) && |ls| == MEMORY_BLOCKS
    ensures |p.0| == MEMORY_BLOCKS
  {
    var j := ops.index(a);
    var c1 := MixedIn(ops, ops.aes(ls[j], a), ls, j, v);
    var ls' := if Shuffles(v) then Shuffled(ops, ls, j, a, b0, b1) else ls;
    (ls'[j := Tweak1(ops, v, ops.xor(c1, b0))], c1)
  }

  /** `variant_2_2`: exchange between the product and two blocks of the line. */
  function Exchange<B, M>(v: Variant, ops: Ops<B, M>, ls: seq<B>, j: nat, d: B): (p: (seq<B>, B))
    requires |ls| == MEMORY_BLOCKS && j < |ls|
    ensures |p.0| == MEMORY_BLOCKS
  {
    LaneInRange(j, 1); LaneInRange(j, 2);
    if v == V2 then (ls[Lane(j, 1) := ops.xor(ls[Lane(j, 1)], d)], ops.xor(d, ls[Lane(j, 2)])) else (ls, d)
  }

  /** The arithmetic on `a1` and `c2` between the accesses: random math in variant R only. */
  function Arithmetic<B(!new), M>(v: Variant, ops: Ops<B, M>, x: Mix<B, M>, code: Program, c1: B, c2: B)
    : (p: (B, B, M, seq<Word>))
    requires IsMix(ops, x, code)
    ensures |p.3| == REGISTERS
  {
    match v
    case V0 | V1 => (x.a, c2, x.m, x.r)
    case V2 => var (c2', m) := ops.divide(c2, c1, x.m); (x.a, c2', m, x.r)
    case R => var (a1, c2', r) := RandomMathStep(ops, x.a, c2, x.r, x.b0, x.b1, code); (a1, c2', x.m, r)
  }

  /** Lines 322-329: the scratchpad, the next `a` and `c1` after the second access at `j`. */
  function Written<B, M>(v: Variant, ops: Ops<B, M>, ls: seq<B>, j: nat, a: B, b0: B, b1: B, a1: B, c1: B,
        c2: B): (p: (seq<B>, B, B))
    requires |ls| == MEMORY_BLOCKS && j < |ls|
    ensures |p.0| == MEMORY_BLOCKS
  {
    var (ls', d) := Exchange(v, ops, ls, j, ops.mul(c1, c2));
    var c1' := MixedIn(ops, c1, ls', j, v);
    var ls'' := if Shuffles(v) then Shuffled(ops, ls', j, a, b0, b1) else ls';
    var s := ops.sum(a1, d);
    (ls''[j := Tweak2(ops, v, s)], ops.xor(c2, s), c1')
  }

  function SecondHalf<B(!new), M>(v: Variant, ops: Ops<B, M>, x: Mix<B, M>, code: Program, ls: seq<B>, c1: B)
    : (y: Mix<B, M>)
    requires IsMix(ops, x, code) && |ls| == MEMORY_BLOCKS
    ensures IsMix(ops, y, code)
  {
    var j := ops.index(c1);
    var (a1, c2, m, r) := Arithmetic(v, ops, x, code, c1, ls[j]);
    var (ls', a, b0) := Written(v, ops, ls, j, x.a, x.b0, x.b1, a1, c1, c2);
    Mix(ls', a, b0, if Shuffles(v) then x.b0 else x.b1, m, r)
  }

  function Iteration<B(!new), M>(v: Variant, ops: Ops<B, M>, x: Mix<B, M>, code: Program): (y: Mix<B, M>)
    requires IsMix(ops, x, code)
    ensures IsMix(ops, y, code)
  {
    var (ls, c1) := FirstHalf(v, ops, x.ls, x.a, x.b0, x.b1);
    SecondHalf(v, ops, x, code, ls, c1)
  }

  /** What the two passes through the registers may differ in: R4-R8, which variant R reloads. */
  predicate Agree<B(==), M(==)>(v: Variant, x: Mix<B, M>, y: Mix<B, M>, code: Program) {
    && x.ls == y.ls && x.a == y.a && x.b0 == y.b0 && x.b1 == y.b1 && x.m == y.m
    && if v == R then x.r == y.r else Idle(x.r, code) && Idle(y.r, code)
  }

  method FirstAccess<B(!new), M>(v: Variant, ops: Ops<B, M>, a: B, b0: B, b1: B, ls: array<B>) returns (c1: B)
    requires Lawful(ops) && ls.Length == MEMORY_BLOCKS
    modifies ls
    ensures (ls[..], c1) == FirstHalf(v, ops, old(ls[..]), a, b0, b1)
  {
    var j := ops.index(a);
    c1 := ops.aes(ls[j], a);
    c1 := ShuffleAdd(ops, c1, a, b0, b1, ls, j, v);
    ghost var s := ls[..];
    ls[j] := ops.xor(c1, b0);
    if v == V1 { ls[j] := ops.tweak1(ls[j]); }
    assert ls[..] == s[j := ls[j]];
  }

  method ExchangeIn<B, M>(v: Variant, ops: Ops<B, M>, ls: array<B>, j: nat, d: B) returns (d': B)
    requires ls.Length == MEMORY_BLOCKS && j < ls.Length
    modifies ls
    ensures (ls[..], d') == Exchange(v, ops, old(ls[..]), j, d)
  {
    d' := d;
    if v == V2 {
      var l1, l2 := Lane(j, 1), Lane(j, 2);
      LaneInRange(j, 1); LaneInRange(j, 2);
      ls[l1] := ops.xor(ls[l1], d);
      d' := ops.xor(d, ls[l2]);
    }
  }

  /** In the code every variant takes the random-math step. */
  method ArithmeticIn<B(!new), M>(v: Variant, ops: Ops<B, M>, a: B, b0: B, b1: B, m: M, c1: B, c2: B, r: array<Word>,
        code: Program, ghost x: Mix<B, M>)
    returns (a1: B, c2': B, m': M)
    requires IsMix(ops, x, code) && r.Length == REGISTERS
    requires x.a == a && x.b0 == b0 && x.b1 == b1 && x.m == m
    requires if v == R then x.r == r[..] else Idle(x.r, code) && Idle(r[..], code)
    modifies r
    ensures var p := Arithmetic(v, ops, x, code, c1, c2);
            && (a1, c2', m') == (p.0, p.1, p.2)
            && if v == R then r[..] == p.3 else Idle(p.3, code) && Idle(r[..], code)
  {
    c2', m' := c2, m;
    if v == V2 {
      var (q, n) := ops.divide(c2, c1, m);
      c2', m' := q, n;
    }
    if v != R { IdleStep(ops, a, c2', r[..], b0, b1, code); }
    a1, c2' := RandomMath(ops, a, c2', r, b0, b1, code);
  }

  method WriteBack<B, M>(v: Variant, ops: Ops<B, M>, ls: array<B>, j: nat, a: B, b0: B, b1: B, a1: B, c1: B, c2: B)
    returns (a': B, c1': B)
    requires ls.Length == MEMORY_BLOCKS && j < ls.Length
    modifies ls
    ensures (ls[..], a', c1') == Written(v, ops, old(ls[..]), j, a, b0, b1, a1, c1, c2)
  {
    var d := ops.mul(c1, c2);
    d := ExchangeIn(v, ops, ls, j, d);
    c1' := ShuffleAdd(ops, c1, a, b0, b1, ls, j, v);
    ghost var s := ls[..];
    var sum := ops.sum(a1, d);
    a' := ops.xor(c2, sum);
    if v == V1 { sum := ops.tweak2(sum); }
    ls[j] := sum;
    assert ls[..] == s[j := sum];
  }

  method SecondAccess<B(!new), M>(v: Variant, ops: Ops<B, M>, a: B, b0: B, b1: B, m: M, c1: B, ls: array<B>,
        r: array<Word>, code: Program, ghost x: Mix<B, M>)
    returns (a': B, b0': B, b1': B, m': M)
    requires IsMix(ops, x, code) && ls.Length == MEMORY_BLOCKS && r.Length == REGISTERS
    requires x.a == a && x.b0 == b0 && x.b1 == b1 && x.m == m
    requires if v == R then x.r == r[..] else Idle(x.r, code) && Idle(r[..], code)
    modifies ls, r
    ensures Agree(v, Mix(ls[..], a', b0', b1', m', r[..]), SecondHalf(v, ops, x, code, old(ls[..]), c1), code)
  {
    var j := ops.index(c1);
    var a1, c2;
    a1, c2, m' := ArithmeticIn(v, ops, a, b0, b1, m, c1, ls[j], r, code, x);
    b1' := b1;
    if v == V2 || v == R { b1' := b0; }
    a', b0' := WriteBack(v, ops, ls, j, a, b0, b1, a1, c1, c2);
  }

  method LoopBody<B(!new), M>(v: Variant, ops: Ops<B, M>, a: B, b0: B, b1: B, m: M, ls: array<B>, r: array<Word>,
        code: Program, ghost x: Mix<B, M>)
    returns (a': B, b0': B, b1': B, m': M)
    requires ls.Length == MEMORY_BLOCKS && r.Length == REGISTERS
    requires IsMix(ops, x, code) && Agree(v, Mix(ls[..], a, b0, b1, m, r[..]), x, code)
    modifies ls, r
    ensures Agree(v, Mix(ls[..], a', b0', b1', m', r[..]), ReferenceStep(v, ops, x, code), code)
  {
    IterationIsReference(v, ops, x, code);
    var c1 := FirstAccess(v, ops, a, b0, b1, ls);
    a', b0', b1', m' := SecondAccess(v, ops, a, b0, b1, m, c1, ls, r, code, x);
  }

  // ----- Against the definitions of the variants -----

  /** The shuffle and the write to the addressed block, together. */
  lemma ShuffleAndWrite<B, M>(ops: Ops<B, M>, ls: seq<B>, j: nat, a: B, b0: B, b1: B, at: B)
    requires |ls| == MEMORY_BLOCKS && j < |ls|
    ensures Lane(j, 1) < |ls| && Lane(j, 2) < |ls| && Lane(j, 3) < |ls|
    ensures Shuffled(ops, ls, j, a, b0, b1)[j := at] ==
            Rewritten(ls, j, at, ops.shuffleSum(ls[Lane(j, 3)], b1),
                      ops.shuffleSum(ls[Lane(j, 1)], b0), ops.shuffleSum(ls[Lane(j, 2)], a))
  {
    LaneInRange(j, 1); LaneInRange(j, 2); LaneInRange(j, 3);
    var s := Shuffled(ops, ls, j, a, b0, b1);
    forall k | 0 <= k < |ls|
      ensures s[j := at][k] ==
              Rewritten(ls, j, at, ops.shuffleSum(ls[Lane(j, 3)], b1),
                        ops.shuffleSum(ls[Lane(j, 1)], b0), ops.shuffleSum(ls[Lane(j, 2)], a))[k]
    {
      ShuffleStaysInLine(ops, ls, j, a, b0, b1, k);
    }
  }

  /** A block of the line that is replaced anyway does not matter. */
  lemma RewrittenAgain<B>(pad: seq<B>, j: nat, old1: B, at: B, v1: B, v2: B, v3: B)
    requires |pad| == MEMORY_BLOCKS && j < |pad| && Lane(j, 1) < |pad|
    ensures Rewritten(pad[Lane(j, 1) := old1], j, at, v1, v2, v3) == Rewritten(pad, j, at, v1, v2, v3)
  {}

  lemma LanesDiffer(j: nat)
    ensures Lane(j, 1) != Lane(j, 2) && Lane(j, 1) != Lane(j, 3) && Lane(j, 2) != Lane(j, 3)
  {}

  lemma IterationV0<B(!new), M>(ops: Ops<B, M>, x: Mix<B, M>, code: Program)
    requires IsMix(ops, x, code)
    ensures Iteration(V0, ops, x, code) == ReferenceStep(V0, ops, x, code)
  {
    var j, c1 := ops.index(x.a), ops.aes(x.ls[ops.index(x.a)], x.a);
    assert x.ls[j := c1][j := ops.xor(c1, x.b0)] == x.ls[j := ops.xor(c1, x.b0)];
  }

  lemma IterationV1<B(!new), M>(ops: Ops<B, M>, x: Mix<B, M>, code: Program)
    requires IsMix(ops, x, code)
    ensures Iteration(V1, ops, x, code) == StepV1(ops, x)
  {}

  /** The second access of variant 2, on the pad the first one left. */
  lemma WrittenV2<B, M>(ops: Ops<B, M>, pad: seq<B>, k: nat, a: B, b0: B, b1: B, c: B, e: B)
    requires |pad| == MEMORY_BLOCKS && k < |pad|
    ensures Lane(k, 1) < |pad| && Lane(k, 2) < |pad| && Lane(k, 3) < |pad|
    ensures var d := ops.mul(c, e);
            var s := ops.sum(a, ops.xor(d, pad[Lane(k, 2)]));
            Written(V2, ops, pad, k, a, b0, b1, a, c, e) ==
            (Rewritten(pad, k, s, ops.shuffleSum(pad[Lane(k, 3)], b1),
                       ops.shuffleSum(ops.xor(pad[Lane(k, 1)], d), b0), ops.shuffleSum(pad[Lane(k, 2)], a)),
             ops.xor(e, s), c)
  {
    LaneInRange(k, 1); LaneInRange(k, 2); LaneInRange(k, 3);
    LanesDiffer(k);
    var d := ops.mul(c, e);
    var s := ops.sum(a, ops.xor(d, pad[Lane(k, 2)]));
    var v := ops.xor(pad[Lane(k, 1)], d);
    var exchanged := pad[Lane(k, 1) := v];
    ShuffleAndWrite(ops, exchanged, k, a, b0, b1, s);
    RewrittenAgain(pad, k, v, s, ops.shuffleSum(pad[Lane(k, 3)], b1), ops.shuffleSum(v, b0),
                   ops.shuffleSum(pad[Lane(k, 2)], a));
  }

  lemma IterationV2<B(!new), M>(ops: Ops<B, M>, x: Mix<B, M>, code: Program)
    requires IsMix(ops, x, code)
    ensures Iteration(V2, ops, x, code) == StepV2(ops, x)
  {
    var j := ops.index(x.a);
    var c := ops.aes(x.ls[j], x.a);
    ShuffleAndWrite(ops, x.ls, j, x.a, x.b0, x.b1, ops.xor(c, x.b0));
    var pad := FirstHalf(V2, ops, x.ls, x.a, x.b0, x.b1).0;
    var k := ops.index(c);
    WrittenV2(ops, pad, k, x.a, x.b0, x.b1, c, ops.divide(pad[k], c, x.m).0);
  }

  /** The second access of variant R. */
  lemma WrittenR<B, M>(ops: Ops<B, M>, pad: seq<B>, k: nat, a: B, b0: B, b1: B, a1: B, c: B, e: B)
    requires |pad| == MEMORY_BLOCKS && k < |pad|
    ensures Lane(k, 1) < |pad| && Lane(k, 2) < |pad| && Lane(k, 3) < |pad|
    ensures var s := ops.sum(a1, ops.mul(c, e));
            var line := ops.xor(ops.xor(pad[Lane(k, 1)], pad[Lane(k, 2)]), pad[Lane(k, 3)]);
            Written(R, ops, pad, k, a, b0, b1, a1, c, e) ==
            (Rewritten(pad, k, s, ops.shuffleSum(pad[Lane(k, 3)], b1),
                       ops.shuffleSum(pad[Lane(k, 1)], b0), ops.shuffleSum(pad[Lane(k, 2)], a)),
             ops.xor(e, s), ops.xor(c, line))
  {
    ShuffleAndWrite(ops, pad, k, a, b0, b1, ops.sum(a1, ops.mul(c, e)));
  }

  lemma IterationR<B(!new), M>(ops: Ops<B, M>, x: Mix<B, M>, code: Program)
    requires IsMix(ops, x, code)
    ensures Iteration(R, ops, x, code) == StepR(ops, x, code)
  {
    var j := ops.index(x.a);
    LaneInRange(j, 1); LaneInRange(j, 2); LaneInRange(j, 3);
    var (pad, c) := FirstHalf(R, ops, x.ls, x.a, x.b0, x.b1);
    ShuffleAndWrite(ops, x.ls, j, x.a, x.b0, x.b1, ops.xor(c, x.b0));
    var k := ops.index(c);
    var (a1, e, r) := RandomMathStep(ops, x.a, pad[k], x.r, x.b0, x.b1, code);
    WrittenR(ops, pad, k, x.a, x.b0, x.b1, a1, c, e);
  }

  /** The shared code does in each variant what that variant's definition says. */
  lemma IterationIsReference<B(!new), M>(v: Variant, ops: Ops<B, M>, x: Mix<B, M>, code: Program)
    requires IsMix(ops, x, code)
    ensures Iteration(v, ops, x, code) == ReferenceStep(v, ops, x, code)
  {
    match v
    case V0 => IterationV0(ops, x, code);
    case V1 => IterationV1(ops, x, code);
    case V2 => IterationV2(ops, x, code);
    case R => IterationR(ops, x, code);
  }

  /** The loop of `cn_slow_hash`, `n` times, in place: what the variant's definition gives. */
  method MainLoop<B(!new), M>(v: Variant, ops: Ops<B, M>, n: nat, a0: B, b: (B, B), m0: M, ls: array<B>,
                              r: array<Word>, code: Program)
    returns (a: B, b0: B, b1: B, m: M)
    requires ls.Length == MEMORY_BLOCKS && r.Length == REGISTERS
    requires IsMix(ops, Mix(ls[..], a0, b.0, b.1, m0, r[..]), code)
    requires v != R ==> Idle(r[..], code)
    modifies ls, r
    ensures var start := old(Mix(ls[..], a0, b.0, b.1, m0, r[..]));
            Agree(v, Mix(ls[..], a, b0, b1, m, r[..]), ReferenceLoop(v, ops, start, code, n), code)
  {
    a, b0, b1, m := a0, b.0, b.1, m0;
    ghost var start := Mix(ls[..], a0, b.0, b.1, m0, r[..]);
    ghost var x := start;
    for i := 0 to n
      invariant IsMix(ops, x, code) && x == ReferenceLoop(v, ops, start, code, i)
      invariant Agree(v, Mix(ls[..], a, b0, b1, m, r[..]), x, code)
    {
      a, b0, b1, m := LoopBody(v, ops, a, b0, b1, m, ls, r, code, x);
      x := ReferenceStep(v, ops, x, code);
    }
  }
}
