/** `priority_calculator.py`: an expression of numbers and `+ - * /`
    separated by blanks is checked and turned into tokens, then evaluated in
    two passes, `*` and `/` first, each level from left to right. */
module PriorityCalculator {
  import opened Wrappers
  import opened Text

  datatype Op = Plus | Minus | Times | Slash

  /** An element of the parsed list: a number, or an operator symbol. */
  datatype Token = Num(value: real) | Sym(op: Op)

  /** The operator a word stands for, when it is one of `+ - / *`. */
  function OpOf(w: string): (r: Option<Op>)
    ensures r.Some? <==> w in ["+", "-", "/", "*"]
  {
    if w == "+" then Some(Plus)
    else if w == "-" then Some(Minus)
    else if w == "/" then Some(Slash)
    else if w == "*" then Some(Times)
    else None
  }

  predicate IsAdditive(t: Token) { t.Sym? && (t.op == Plus || t.op == Minus) }

  predicate IsMultiplicative(t: Token) { t.Sym? && (t.op == Times || t.op == Slash) }

  lemma OperatorKinds(t: Token)
    requires t.Sym?
    ensures IsAdditive(t) != IsMultiplicative(t)
  {
  }

  /** Number, then any number of (operator, number) pairs. */
  predicate WellFormed(ts: seq<Token>)
    decreases |ts|
  {
    if |ts| < 3 then |ts| == 1 && ts[0].Num?
    else ts[|ts| - 1].Num? && ts[|ts| - 2].Sym? && WellFormed(ts[..|ts| - 2])
  }

  /** A well-formed list whose operators are all `+` or `-`. */
  predicate AddChain(ts: seq<Token>)
    decreases |ts|
  {
    if |ts| < 3 then |ts| == 1 && ts[0].Num?
    else ts[|ts| - 1].Num? && IsAdditive(ts[|ts| - 2]) && AddChain(ts[..|ts| - 2])
  }

  /** Well-formed means: odd length, numbers exactly at the even positions. */
  lemma {:induction false} WellFormedByIndex(ts: seq<Token>)
    ensures WellFormed(ts) <==>
      |ts| % 2 == 1 && forall i | 0 <= i < |ts| :: ts[i].Num? <==> i % 2 == 0
    decreases |ts|
  {
    if |ts| >= 3 {
      var p := ts[..|ts| - 2];
      WellFormedByIndex(p);
      if |ts| % 2 == 1 && forall i | 0 <= i < |ts| :: ts[i].Num? <==> i % 2 == 0 {
        assert forall i | 0 <= i < |p| :: p[i].Num? <==> i % 2 == 0 by {
          forall i | 0 <= i < |p| ensures p[i].Num? <==> i % 2 == 0 {
            assert p[i] == ts[i];
          }
        }
        assert (|ts| - 2) % 2 == 1;
      }
    }
  }

  lemma {:induction false} WellFormedPrefix(ts: seq<Token>, c: int)
    requires WellFormed(ts) && 0 < c <= |ts| && c % 2 == 1
    ensures WellFormed(ts[..c])
    decreases |ts|
  {
    WellFormedByIndex(ts);
    if c == |ts| {
      assert ts[..c] == ts;
    } else {
      WellFormedPrefix(ts[..|ts| - 2], c);
      assert ts[..|ts| - 2][..c] == ts[..c];
    }
  }

  lemma {:induction false} AddChainWellFormed(ts: seq<Token>)
    requires AddChain(ts)
    ensures WellFormed(ts)
    decreases |ts|
  {
    if |ts| >= 3 {
      AddChainWellFormed(ts[..|ts| - 2]);
    }
  }

  lemma {:induction false} AddChainPrefix(ts: seq<Token>, c: int)
    requires AddChain(ts) && 0 < c <= |ts| && c % 2 == 1
    ensures AddChain(ts[..c])
    decreases |ts|
  {
    AddChainWellFormed(ts);
    WellFormedByIndex(ts);
    if c == |ts| {
      assert ts[..c] == ts;
    } else {
      AddChainPrefix(ts[..|ts| - 2], c);
      assert ts[..|ts| - 2][..c] == ts[..c];
    }
  }

  function Add(a: real, b: real): real { a + b }

  function Subtract(a: real, b: real): real { a - b }

  function Multiply(a: real, b: real): real { a * b }

  /** `divide`: only called with a non-zero divisor, whose multiple it inverts. */
  function Divide(a: real, b: real): (r: real)
    requires b != 0.0
    ensures r * b == a
  {
    a / b
  }

  /** One operator applied; `None` for a division by zero. */
  function Apply(o: Op, x: real, y: real): (r: Option<real>)
    ensures r.None? <==> o == Slash && y == 0.0
  {
    match o
    case Plus => Some(Add(x, y))
    case Minus => Some(Subtract(x, y))
    case Times => Some(Multiply(x, y))
    case Slash => if y == 0.0 then None else Some(Divide(x, y))
  }

  /** Some `/` is immediately followed by the number zero. */
  predicate HasDivByZero(ts: seq<Token>) {
    exists i | 0 <= i < |ts| - 1 :: ts[i] == Sym(Slash) && ts[i + 1] == Num(0.0)
  }

  // ---------------------------------------------------------------------
  // The reference semantics: an expression is a sequence of terms joined by
  // `+` and `-`, a term a sequence of numbers joined by `*` and `/`; both
  // levels group to the left.

  /** Index of the last `+` or `-`, or -1 when there is none. */
  function LastAdditive(ts: seq<Token>): (k: int)
    ensures -1 <= k < |ts|
    ensures k >= 0 ==> IsAdditive(ts[k])
  {
    if ts == [] then -1
    else if IsAdditive(ts[|ts| - 1]) then |ts| - 1
    else LastAdditive(ts[..|ts| - 1])
  }

  /** No `+` or `-` comes after the one found. */
  lemma {:induction false} LastAdditiveIsLast(ts: seq<Token>)
    ensures forall j | LastAdditive(ts) < j < |ts| :: !IsAdditive(ts[j])
  {
    if ts != [] && !IsAdditive(ts[|ts| - 1]) {
      LastAdditiveIsLast(ts[..|ts| - 1]);
    }
  }

  /** Past a number and a `*` or `/`, the last `+`/`-` is the one before them. */
  lemma LastAdditiveSkip(ts: seq<Token>)
    requires |ts| >= 2 && !IsAdditive(ts[|ts| - 1]) && !IsAdditive(ts[|ts| - 2])
    ensures LastAdditive(ts) == LastAdditive(ts[..|ts| - 2])
  {
    assert ts[..|ts| - 1][..|ts| - 2] == ts[..|ts| - 2];
  }

  /** The parts before and after the last `+`/`-` are well formed. */
  lemma {:induction false} SplitAtAdditive(ts: seq<Token>)
    requires WellFormed(ts) && LastAdditive(ts) >= 0
    ensures var k := LastAdditive(ts);
      WellFormed(ts[..k]) && WellFormed(ts[k + 1..])
    decreases |ts|
  {
    var p := ts[..|ts| - 2];
    if IsAdditive(ts[|ts| - 2]) {
      assert LastAdditive(ts) == |ts| - 2;
      assert ts[|ts| - 1..] == [ts[|ts| - 1]];
    } else {
      LastAdditiveSkip(ts);
      SplitAtAdditive(p);
      var k := LastAdditive(ts);
      assert ts[..k] == p[..k];
      assert ts[k + 1..][..|ts| - k - 3] == p[k + 1..];
    }
  }

  /** An operator applied to two partial values; a failure on either side propagates. */
  function Combine(a: Option<real>, o: Op, b: Option<real>): (r: Option<real>)
    ensures r.None? <==> a.None? || b.None? || (o == Slash && b.value == 0.0)
  {
    if a.Some? && b.Some? then Apply(o, a.value, b.value) else None
  }

  /** A term, evaluated from the left. */
  function EvalTerm(ts: seq<Token>): Option<real>
    requires WellFormed(ts)
    decreases |ts|
  {
    if |ts| == 1 then Some(ts[0].value)
    else Combine(EvalTerm(ts[..|ts| - 2]), ts[|ts| - 2].op, Some(ts[|ts| - 1].value))
  }

  /** An expression: everything before the last `+`/`-`, combined with the term after it. */
  function EvalExpr(ts: seq<Token>): Option<real>
    requires WellFormed(ts)
    decreases |ts|
  {
    var k := LastAdditive(ts);
    if k < 0 then EvalTerm(ts)
    else
      SplitAtAdditive(ts);
      Combine(EvalExpr(ts[..k]), ts[k].op, EvalTerm(ts[k + 1..]))
  }

  // ---------------------------------------------------------------------
  // What the two passes of `calculate` compute.

  /** An additive chain is not empty and ends with a number. */
  lemma AddChainEnds(b: seq<Token>)
    requires AddChain(b)
    ensures b != [] && b[|b| - 1].Num?
  {
  }

  lemma ReplaceLast(b: seq<Token>, v: real)
    requires AddChain(b)
    ensures AddChain(b[..|b| - 1] + [Num(v)])
  {
    if |b| >= 3 {
      assert (b[..|b| - 1] + [Num(v)])[..|b| - 2] == b[..|b| - 2];
    }
  }

  lemma PushPair(b: seq<Token>, o: Token, v: real)
    requires AddChain(b) && IsAdditive(o)
    ensures AddChain(b + [o, Num(v)])
  {
    assert (b + [o, Num(v)])[..|b|] == b;
  }

  /** `B` after a `*` or `/` with the number `y`: its top number is replaced
      by the result, or the pass fails on a division by zero. */
  function FoldTop(r: Option<seq<Token>>, o: Op, y: real): (r': Option<seq<Token>>)
    requires r.Some? ==> AddChain(r.value)
    ensures r'.Some? ==> AddChain(r'.value)
  {
    match r
    case None => None
    case Some(b) =>
      AddChainEnds(b);
      match Apply(o, b[|b| - 1].value, y)
      case None => None
      case Some(v) =>
        ReplaceLast(b, v);
        Some(b[..|b| - 1] + [Num(v)])
  }

  /** `B` followed by a `+`/`-` and a number. */
  function Extend(r: Option<seq<Token>>, o: Token, v: Option<real>): (r': Option<seq<Token>>)
    requires IsAdditive(o) && (r.Some? ==> AddChain(r.value))
    ensures r'.Some? ==> AddChain(r'.value)
  {
    if r.Some? && v.Some? then
      PushPair(r.value, o, v.value);
      Some(r.value + [o, Num(v.value)])
    else None
  }

  /** A single number as a list `B`. */
  function Lift(v: Option<real>): (r: Option<seq<Token>>)
    ensures r.Some? ==> AddChain(r.value)
  {
    if v.Some? then Some([Num(v.value)]) else None
  }

  /** The list `B` after the first pass over `ts`: each `*` or `/` folded into
      the number before it; `None` when a `/` meets a zero. */
  function Reduce(ts: seq<Token>): (r: Option<seq<Token>>)
    requires WellFormed(ts)
    ensures r.Some? ==> AddChain(r.value)
    decreases |ts|
  {
    if |ts| == 1 then Some(ts)
    else
      var o, y := ts[|ts| - 2], ts[|ts| - 1];
      OperatorKinds(o);
      if IsMultiplicative(o) then FoldTop(Reduce(ts[..|ts| - 2]), o.op, y.value)
      else Extend(Reduce(ts[..|ts| - 2]), o, Some(y.value))
  }

  /** The second pass: the numbers of an additive chain summed from the left. */
  function SumFold(b: seq<Token>): real
    requires AddChain(b)
    decreases |b|
  {
    if |b| == 1 then b[0].value
    else if b[|b| - 2] == Sym(Plus) then Add(SumFold(b[..|b| - 2]), b[|b| - 1].value)
    else Subtract(SumFold(b[..|b| - 2]), b[|b| - 1].value)
  }

  /** The first pass fails exactly on a division by zero. */
  lemma {:induction false} ReduceNone(ts: seq<Token>)
    requires WellFormed(ts)
    ensures Reduce(ts).None? <==> HasDivByZero(ts)
    decreases |ts|
  {
    if |ts| > 1 {
      var p := ts[..|ts| - 2];
      ReduceNone(p);
      if HasDivByZero(ts) && !HasDivByZero(p) {
        var i :| 0 <= i < |ts| - 1 && ts[i] == Sym(Slash) && ts[i + 1] == Num(0.0);
        assert i == |ts| - 2;
      }
      if HasDivByZero(p) {
        var i :| 0 <= i < |p| - 1 && p[i] == Sym(Slash) && p[i + 1] == Num(0.0);
        assert ts[i] == Sym(Slash) && ts[i + 1] == Num(0.0);
      }
      if ts[|ts| - 2] == Sym(Slash) && ts[|ts| - 1] == Num(0.0) {
        assert HasDivByZero(ts);
      }
    }
  }

  /** The first pass ends with the reduced list of everything before the last
      `+`/`-`, that operator, and the value of the term after it. */
  predicate ShapeOf(ts: seq<Token>)
    requires WellFormed(ts)
  {
    var k := LastAdditive(ts);
    if k < 0 then Reduce(ts) == Lift(EvalTerm(ts))
    else
      SplitAtAdditive(ts);
      Reduce(ts) == Extend(Reduce(ts[..k]), ts[k], EvalTerm(ts[k + 1..]))
  }

  /** Folding into a single number is evaluating one more operation of its term. */
  lemma FoldTopLift(v: Option<real>, o: Op, y: real)
    ensures FoldTop(Lift(v), o, y) == Lift(Combine(v, o, Some(y)))
  {
    if v.Some? {
      var b := [Num(v.value)];
      assert b[|b| - 1].value == v.value;
      match Apply(o, v.value, y)
      case None =>
      case Some(w) =>
        assert b[..|b| - 1] + [Num(w)] == [Num(w)];
    }
  }

  /** Folding into the number after a `+`/`-` is evaluating one more operation of that term. */
  lemma FoldTopExtend(r: Option<seq<Token>>, a: Token, v: Option<real>, o: Op, y: real)
    requires IsAdditive(a) && (r.Some? ==> AddChain(r.value))
    ensures FoldTop(Extend(r, a, v), o, y) == Extend(r, a, Combine(v, o, Some(y)))
  {
    if r.Some? && v.Some? {
      var b := r.value + [a, Num(v.value)];
      assert Extend(r, a, v) == Some(b);
      assert b[|b| - 1].value == v.value;
      match Apply(o, v.value, y)
      case None =>
      case Some(w) =>
        assert b[..|b| - 1] + [Num(w)] == r.value + [a, Num(w)];
    }
  }

  /** A well-formed list extended by an operator and a number. */
  lemma WellFormedSnoc(p: seq<Token>, o: Token, y: Token)
    requires WellFormed(p) && o.Sym? && y.Num?
    ensures WellFormed(p + [o, y])
  {
    assert (p + [o, y])[..|p|] == p;
  }

  /** `Reduce` past a `+` or `-`. */
  lemma ReduceAdditiveStep(p: seq<Token>, o: Token, y: Token)
    requires WellFormed(p) && IsAdditive(o) && y.Num?
    ensures WellFormed(p + [o, y])
    ensures Reduce(p + [o, y]) == Extend(Reduce(p), o, Some(y.value))
  {
    WellFormedSnoc(p, o, y);
    assert (p + [o, y])[..|p|] == p;
  }

  /** `Reduce` past a `*` or `/`. */
  lemma ReduceMultiplicativeStep(p: seq<Token>, o: Token, y: Token)
    requires WellFormed(p) && IsMultiplicative(o) && y.Num?
    ensures WellFormed(p + [o, y])
    ensures Reduce(p + [o, y]) == FoldTop(Reduce(p), o.op, y.value)
  {
    WellFormedSnoc(p, o, y);
    assert (p + [o, y])[..|p|] == p;
  }

  /** The last two tokens split off. */
  lemma LastPair(ts: seq<Token>)
    requires |ts| >= 2
    ensures ts == ts[..|ts| - 2] + [ts[|ts| - 2], ts[|ts| - 1]]
  {
  }

  /** A single number. */
  lemma ShapeSingle(ts: seq<Token>)
    requires WellFormed(ts) && |ts| == 1
    ensures ShapeOf(ts)
  {
    assert LastAdditive(ts) == -1 by {
      assert ts[..0] == [];
    }
    assert ts == [Num(ts[0].value)];
  }

  /** The last operator is a `+` or `-`. */
  lemma ShapeAdditive(ts: seq<Token>)
    requires WellFormed(ts) && |ts| > 1 && IsAdditive(ts[|ts| - 2])
    ensures ShapeOf(ts)
  {
    var k := |ts| - 2;
    assert LastAdditive(ts) == k;
    assert ts[k + 1..] == [ts[|ts| - 1]];
    LastPair(ts);
    ReduceAdditiveStep(ts[..k], ts[k], ts[k + 1]);
  }

  /** The last operator is a `*` or `/` in the first term. */
  lemma ShapeFirstTerm(ts: seq<Token>)
    requires WellFormed(ts) && |ts| > 1 && IsMultiplicative(ts[|ts| - 2])
    requires ShapeOf(ts[..|ts| - 2])
    requires LastAdditive(ts) == LastAdditive(ts[..|ts| - 2]) < 0
    ensures ShapeOf(ts)
  {
    LastPair(ts);
    ReduceMultiplicativeStep(ts[..|ts| - 2], ts[|ts| - 2], ts[|ts| - 1]);
    FoldTopLift(EvalTerm(ts[..|ts| - 2]), ts[|ts| - 2].op, ts[|ts| - 1].value);
  }

  /** A `*` or `/` after the last `+`/`-` extends the term after it and leaves the rest. */
  lemma LastTermGrows(ts: seq<Token>)
    requires WellFormed(ts) && |ts| > 1 && IsMultiplicative(ts[|ts| - 2])
    requires LastAdditive(ts) == LastAdditive(ts[..|ts| - 2]) >= 0
    ensures var p, k := ts[..|ts| - 2], LastAdditive(ts);
      WellFormed(ts[k + 1..]) && WellFormed(p[k + 1..]) && ts[..k] == p[..k] && ts[k] == p[k]
      && EvalTerm(ts[k + 1..]) == Combine(EvalTerm(p[k + 1..]), ts[|ts| - 2].op, Some(ts[|ts| - 1].value))
  {
    var p, k := ts[..|ts| - 2], LastAdditive(ts);
    SplitAtAdditive(ts);
    SplitAtAdditive(p);
    SliceAfter(ts, k);
    EvalTermStep(ts[k + 1..]);
  }

  /** Dropping the last two elements before or after slicing at `k`. */
  lemma SliceAfter<T>(ts: seq<T>, k: int)
    requires 0 <= k < |ts| - 2
    ensures var p, t := ts[..|ts| - 2], ts[k + 1..];
      ts[..k] == p[..k] && ts[k] == p[k] && |t| > 1
      && t[..|t| - 2] == p[k + 1..] && t[|t| - 2] == ts[|ts| - 2] && t[|t| - 1] == ts[|ts| - 1]
  {
    var p, t := ts[..|ts| - 2], ts[k + 1..];
    assert t[..|t| - 2] == p[k + 1..];
  }

  /** One operation more at the end of a term. */
  lemma EvalTermStep(t: seq<Token>)
    requires WellFormed(t) && |t| > 1
    ensures WellFormed(t[..|t| - 2])
    ensures EvalTerm(t) == Combine(EvalTerm(t[..|t| - 2]), t[|t| - 2].op, Some(t[|t| - 1].value))
  {
  }

  /** The last operator is a `*` or `/` in a term after some `+`/`-`. */
  lemma ShapeLaterTerm(ts: seq<Token>)
    requires WellFormed(ts) && |ts| > 1 && IsMultiplicative(ts[|ts| - 2])
    requires ShapeOf(ts[..|ts| - 2])
    requires LastAdditive(ts) == LastAdditive(ts[..|ts| - 2]) >= 0
    ensures ShapeOf(ts)
  {
    var p, k := ts[..|ts| - 2], LastAdditive(ts);
    SplitAtAdditive(ts);
    SplitAtAdditive(p);
    LastTermGrows(ts);
    LastPair(ts);
    ReduceMultiplicativeStep(p, ts[|ts| - 2], ts[|ts| - 1]);
    FoldTopExtend(Reduce(p[..k]), p[k], EvalTerm(p[k + 1..]), ts[|ts| - 2].op, ts[|ts| - 1].value);
  }

  lemma {:induction false} ReduceShape(ts: seq<Token>)
    requires WellFormed(ts)
    ensures ShapeOf(ts)
    decreases |ts|
  {
    if |ts| == 1 {
      ShapeSingle(ts);
    } else {
      var p := ts[..|ts| - 2];
      OperatorKinds(ts[|ts| - 2]);
      if IsAdditive(ts[|ts| - 2]) {
        ShapeAdditive(ts);
      } else {
        ReduceShape(p);
        LastAdditiveSkip(ts);
        if LastAdditive(p) < 0 {
          ShapeFirstTerm(ts);
        } else {
          ShapeLaterTerm(ts);
        }
      }
    }
  }

  /** The second pass applied to the result of the first, when there is one. */
  function SumOf(r: Option<seq<Token>>): Option<real>
    requires r.Some? ==> AddChain(r.value)
  {
    if r.Some? then Some(SumFold(r.value)) else None
  }

  /** A single number sums to its value. */
  lemma LiftAgree(v: Option<real>)
    ensures SumOf(Lift(v)) == v
  {
  }

  /** Pushing a `+`/`-` and a term's value onto `B` agrees with applying the operator. */
  lemma ExtendAgree(r: Option<seq<Token>>, a: Token, v: Option<real>)
    requires IsAdditive(a) && (r.Some? ==> AddChain(r.value))
    ensures SumOf(Extend(r, a, v)) == Combine(SumOf(r), a.op, v)
  {
    if r.Some? && v.Some? {
      var b := r.value + [a, Num(v.value)];
      assert b[..|b| - 2] == r.value;
    }
  }

  /** The two passes compute the reference value, and fail together. */
  lemma {:induction false} TwoPassesAgree(ts: seq<Token>)
    requires WellFormed(ts)
    ensures SumOf(Reduce(ts)) == EvalExpr(ts)
    decreases |ts|
  {
    ReduceShape(ts);
    var k := LastAdditive(ts);
    if k >= 0 {
      SplitAtAdditive(ts);
      TwoPassesAgree(ts[..k]);
      ExtendAgree(Reduce(ts[..k]), ts[k], EvalTerm(ts[k + 1..]));
    } else {
      LiftAgree(EvalTerm(ts));
    }
  }

  /** The evaluation fails exactly when some `/` is followed by the number 0. */
  lemma EvalExprNone(ts: seq<Token>)
    requires WellFormed(ts)
    ensures EvalExpr(ts).None? <==> HasDivByZero(ts)
  {
    TwoPassesAgree(ts);
    ReduceNone(ts);
  }

  /** A lone number is its own value. */
  lemma EvalSingle(x: real)
    ensures EvalExpr([Num(x)]) == Some(x)
  {
    assert LastAdditive([Num(x)]) == -1 by {
      assert [Num(x)][..0] == [];
    }
  }

  /** Numbers stand at the even positions of a well-formed list. */
  lemma WellFormedAt(ts: seq<Token>, i: int)
    requires WellFormed(ts) && 0 <= i < |ts|
    ensures |ts| % 2 == 1 && (ts[i].Num? <==> i % 2 == 0)
  {
    WellFormedByIndex(ts);
  }

  /** Where `calculate` stands after consuming the first `c` tokens, the last
      of them a number: `B` is the first pass over the consumed prefix. */
  ghost predicate AfterNumber(ts: seq<Token>, c: int, b: seq<Token>) {
    0 < c <= |ts| && WellFormed(ts[..c]) && Reduce(ts[..c]) == Some(b)
  }

  /** Where it stands when the last consumed token is a `+` or `-`: `B` is
      the first pass over the prefix before it, then the operator. */
  ghost predicate AfterAdditive(ts: seq<Token>, c: int, b: seq<Token>) {
    1 < c <= |ts| && IsAdditive(ts[c - 1]) && b != [] && b[|b| - 1] == ts[c - 1]
    && AfterNumber(ts, c - 1, b[..|b| - 1])
  }

  /** The first number is pushed onto the empty `B`. */
  lemma FirstNumber(ts: seq<Token>)
    requires WellFormed(ts)
    ensures AfterNumber(ts, 1, [ts[0]])
  {
    WellFormedAt(ts, 0);
    WellFormedPrefix(ts, 1);
    assert ts[..1] == [ts[0]];
  }

  /** A number is pushed after a `+` or `-`. */
  lemma NumberAfterAdditive(ts: seq<Token>, c: int, b: seq<Token>)
    requires AfterAdditive(ts, c, b) && c < |ts| && ts[c].Num?
    ensures AfterNumber(ts, c + 1, b + [ts[c]])
  {
    var p, r := ts[..c - 1], b[..|b| - 1];
    assert ts[..c + 1] == p + [ts[c - 1], ts[c]];
    ReduceAdditiveStep(p, ts[c - 1], ts[c]);
    assert b + [ts[c]] == r + [ts[c - 1], Num(ts[c].value)];
  }

  /** A `+` or `-` is pushed after a number. */
  lemma AdditiveAfterNumber(ts: seq<Token>, c: int, b: seq<Token>)
    requires AfterNumber(ts, c, b) && c < |ts| && IsAdditive(ts[c])
    ensures AfterAdditive(ts, c + 1, b + [ts[c]])
  {
    assert (b + [ts[c]])[..|b|] == b;
  }

  /** After a number comes an operator and the number after it; `B` ends with a number. */
  lemma OperatorNext(ts: seq<Token>, c: int, b: seq<Token>)
    requires WellFormed(ts) && AfterNumber(ts, c, b) && c < |ts|
    ensures ts[c].Sym? && c + 1 < |ts| && ts[c + 1].Num? && b != [] && b[|b| - 1].Num?
  {
    WellFormedAt(ts[..c], 0);
    WellFormedAt(ts, c);
    WellFormedAt(ts, c + 1);
    AddChainEnds(b);
  }

  /** After a `+` or `-` comes a number. */
  lemma NumberNext(ts: seq<Token>, c: int, b: seq<Token>)
    requires WellFormed(ts) && AfterAdditive(ts, c, b)
    ensures c < |ts| && ts[c].Num?
  {
    WellFormedAt(ts, c - 1);
    WellFormedAt(ts, |ts| - 1);
    if c < |ts| {
      WellFormedAt(ts, c);
    }
  }

  /** A `*` or `/` and the number after it are folded into the top of `B`. */
  lemma MultiplicativeAfterNumber(ts: seq<Token>, c: int, b: seq<Token>, v: real)
    requires AfterNumber(ts, c, b) && c + 1 < |ts|
    requires IsMultiplicative(ts[c]) && ts[c + 1].Num? && b != [] && b[|b| - 1].Num?
    requires Apply(ts[c].op, b[|b| - 1].value, ts[c + 1].value) == Some(v)
    ensures AfterNumber(ts, c + 2, b[..|b| - 1] + [Num(v)])
  {
    var p := ts[..c];
    assert ts[..c + 2] == p + [ts[c], ts[c + 1]];
    ReduceMultiplicativeStep(p, ts[c], ts[c + 1]);
  }

  /** A `/` followed by the number 0 makes the whole expression fail. */
  lemma DivisionByZeroFails(ts: seq<Token>, c: int)
    requires WellFormed(ts) && 0 <= c && c + 1 < |ts|
    requires ts[c] == Sym(Slash) && ts[c + 1] == Num(0.0)
    ensures EvalExpr(ts) == None
  {
    assert HasDivByZero(ts);
    EvalExprNone(ts);
  }

  /** At the end of the first pass `B` is the first pass over all of `ts`. */
  lemma FirstPassDone(ts: seq<Token>, b: seq<Token>, afterNumber: bool)
    requires WellFormed(ts)
    requires afterNumber ==> AfterNumber(ts, |ts|, b)
    requires !afterNumber ==> AfterAdditive(ts, |ts|, b)
    ensures Reduce(ts) == Some(b)
  {
    if !afterNumber {
      NumberNext(ts, |ts|, b);
    }
    assert ts[..|ts|] == ts;
  }

  /** One step of the second pass. */
  lemma SumFoldStep(b: seq<Token>, d: int)
    requires AddChain(b) && 0 < d < |b| && AddChain(b[..d])
    ensures d + 2 <= |b| && AddChain(b[..d + 2]) && b[d + 1].Num?
    ensures SumFold(b[..d + 2]) ==
      if b[d] == Sym(Plus) then Add(SumFold(b[..d]), b[d + 1].value)
      else Subtract(SumFold(b[..d]), b[d + 1].value)
  {
    AddChainWellFormed(b);
    AddChainWellFormed(b[..d]);
    WellFormedAt(b[..d], 0);
    WellFormedByIndex(b);
    AddChainPrefix(b, d + 2);
    assert b[..d + 2][..d] == b[..d];
  }

  /** The second pass starts from the first number of `B`. */
  lemma SumFoldFirst(b: seq<Token>)
    requires AddChain(b)
    ensures b[0].Num? && AddChain(b[..1]) && SumFold(b[..1]) == b[0].value
  {
    AddChainWellFormed(b);
    WellFormedAt(b, 0);
    assert b[..1] == [b[0]];
  }

  /** `calculate`: the first pass pops tokens from the front of `A`, folding
      `*` and `/` into the top of `B`; the second folds `B` from the left.
      The caller's list is taken as a value: it is not consumed. */
  method Calculate(tokens: seq<Token>) returns (r: Option<real>)
    requires WellFormed(tokens)
    ensures r == EvalExpr(tokens)
  {
    var a := tokens;
    var b: seq<Token> := [];
    ghost var c, afterNumber := 0, false;
    while a != []
      invariant 0 <= c <= |tokens| && a == tokens[c..]
      invariant c == 0 ==> b == []
      invariant c > 0 && afterNumber ==> AfterNumber(tokens, c, b)
      invariant c > 0 && !afterNumber ==> AfterAdditive(tokens, c, b)
      decreases |a|
    {
      var token := a[0];
      assert token == tokens[c];
      if c == 0 {
        WellFormedAt(tokens, 0);
      } else if afterNumber {
        OperatorNext(tokens, c, b);
      } else {
        NumberNext(tokens, c, b);
      }
      a := a[1..];
      if token == Sym(Times) || token == Sym(Slash) {
        assert c > 0 && afterNumber;
        ghost var b0 := b;
        var left := b[|b| - 1];
        b := b[..|b| - 1];
        var right := a[0];
        assert right == tokens[c + 1];
        a := a[1..];
        assert a == tokens[c + 2..];
        var tmp: real;
        if token == Sym(Times) {
          tmp := Multiply(left.value, right.value);
          b := b + [Num(tmp)];
        } else {
          if right.value == 0.0 {
            DivisionByZeroFails(tokens, c);
            return None;
          }
          tmp := Divide(left.value, right.value);
          b := b + [Num(tmp)];
        }
        MultiplicativeAfterNumber(tokens, c, b0, tmp);
        c := c + 2;
      } else {
        if c == 0 {
          FirstNumber(tokens);
          assert b + [token] == [tokens[0]];
        } else if afterNumber {
          OperatorKinds(token);
          AdditiveAfterNumber(tokens, c, b);
        } else {
          NumberAfterAdditive(tokens, c, b);
        }
        b := b + [token];
        c, afterNumber := c + 1, c == 0 || !afterNumber;
      }
    }
    assert c == |tokens|;
    WellFormedAt(tokens, 0);
    FirstPassDone(tokens, b, afterNumber);
    ghost var reduced := b;
    SumFoldFirst(reduced);
    var result := b[0].value;
    b := b[1..];
    ghost var d := 1;
    while b != []
      invariant 0 < d <= |reduced| && b == reduced[d..]
      invariant AddChain(reduced[..d])
      invariant result == SumFold(reduced[..d])
      decreases |b|
    {
      SumFoldStep(reduced, d);
      var op := b[0];
      var num := b[1];
      b := b[2..];
      if op == Sym(Plus) {
        result := Add(result, num.value);
      } else {
        result := Subtract(result, num.value);
      }
      d := d + 2;
    }
    assert d == |reduced| && reduced[..d] == reduced;
    TwoPassesAgree(tokens);
    r := Some(result);
  }

  /** `parse_expression`: the words of `s` must be odd in number, numbers at
      the even positions and operator symbols at the odd ones. `parseNum`
      stands for `float`. */
  method ParseExpression(s: string, parseNum: string -> Option<real>)
    returns (parsed: Option<seq<Token>>)
    ensures var ws := Words(s);
      parsed.Some? <==>
        |ws| % 2 == 1
        && (forall i | 0 <= i < |ws| && i % 2 == 0 :: parseNum(ws[i]).Some?)
        && (forall i | 0 <= i < |ws| && i % 2 == 1 :: OpOf(ws[i]).Some?)
    ensures parsed.Some? ==>
      var ws := Words(s);
      WellFormed(parsed.value) && |parsed.value| == |ws|
      && (forall i | 0 <= i < |ws| && i % 2 == 0 :: parsed.value[i] == Num(parseNum(ws[i]).value))
      && (forall i | 0 <= i < |ws| && i % 2 == 1 :: parsed.value[i] == Sym(OpOf(ws[i]).value))
  {
    var words := Words(s);
    if |words| % 2 == 0 {
      return None;
    }
    var tokens: seq<Token> := [];
    for i := 0 to |words|
      invariant |tokens| == i
      invariant forall j | 0 <= j < i && j % 2 == 0 :: parseNum(words[j]).Some? && tokens[j] == Num(parseNum(words[j]).value)
      invariant forall j | 0 <= j < i && j % 2 == 1 :: OpOf(words[j]).Some? && tokens[j] == Sym(OpOf(words[j]).value)
    {
      if i % 2 == 0 {
        var number := parseNum(words[i]);
        if number.None? {
          return None;
        }
        tokens := tokens + [Num(number.value)];
      } else {
        var op := OpOf(words[i]);
        if op.None? {
          return None;
        }
        tokens := tokens + [Sym(op.value)];
      }
    }
    WellFormedByIndex(tokens);
    parsed := Some(tokens);
  }
}
