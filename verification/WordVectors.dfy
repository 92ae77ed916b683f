/**
  The word macros over limb vectors: `bn_mul_add_words`, `bn_mul_words` and the products of four and of eight limbs
  built from them (BaseLib/AES/src/bn_asm.c), and the multiplication of a bignum by a word on top of it
  (BaseLib/AES/src/bn_word.c). Limbs are little-endian, and the result is the same in every build form.
 */
module WordVectors {
  import opened WordMul

  /** The number a limb vector stands for. */
  function Value(xs: seq<nat>, w: nat): (v: nat) {
    if xs == [] then 0 else xs[0] + w * Value(xs[1..], w)
  }

  function Pow(w: nat, n: nat): (p: nat) {
    if n == 0 then 1 else w * Pow(w, n - 1)
  }

  ghost predicate AreWords(xs: seq<nat>, w: nat) {
    forall i | 0 <= i < |xs| :: xs[i] < w
  }

  lemma {:induction false} ValueAppend(xs: seq<nat>, ys: seq<nat>, w: nat)
    ensures Value(xs + ys, w) == Value(xs, w) + Pow(w, |xs|) * Value(ys, w)
  {
    if xs == [] {
      assert xs + ys == ys;
    } else {
      assert (xs + ys)[1..] == xs[1..] + ys;
      ValueAppend(xs[1..], ys, w);
      Distribute(w, Value(xs[1..], w), Pow(w, |xs| - 1), Value(ys, w));
    }
  }

  lemma Distribute(w: nat, x: nat, p: nat, y: nat)
    ensures w * (x + p * y) == w * x + (w * p) * y
  {
  }

  lemma ValueSnoc(xs: seq<nat>, x: nat, w: nat, p: nat)
    requires p == Pow(w, |xs|)
    ensures Value(xs + [x], w) == Value(xs, w) + p * x
  {
    ValueAppend(xs, [x], w);
    assert [x][1..] == [] && Value([x][1..], w) == 0;
    assert Value([x], w) == x;
  }

  // ---------------------------------------------------------------- carry chains

  /** Limb `i` of the result with the carry out, from the limbs of both operands with the carry in. */
  ghost predicate LimbExact(w: nat, a: seq<nat>, m: nat, r: seq<nat>, r': seq<nat>, c: seq<nat>, i: nat)
    requires |a| == |r| == |r'| == |c| - 1 && i < |a|
  {
    Exact(r'[i], c[i + 1], a[i] * m + r[i] + c[i], w)
  }

  /** Limb by limb, with the carry of one step going into the next, every step is exact. */
  ghost predicate Chained(w: nat, a: seq<nat>, m: nat, r: seq<nat>, r': seq<nat>, c: seq<nat>) {
    && |a| == |r| == |r'| == |c| - 1
    && forall i | 0 <= i < |a| :: LimbExact(w, a, m, r, r', c, i)
  }

  lemma ChainedSnoc(
    w: nat, a: seq<nat>, m: nat, r: seq<nat>, r': seq<nat>, c: seq<nat>, a1: nat, r1: nat, r1': nat, c1: nat)
    requires Chained(w, a, m, r, r', c) && Exact(r1', c1, a1 * m + r1 + c[|a|], w)
    ensures Chained(w, a + [a1], m, r + [r1], r' + [r1'], c + [c1])
  {
    forall i | 0 <= i < |a| + 1
      ensures LimbExact(w, a + [a1], m, r + [r1], r' + [r1'], c + [c1], i)
    {
      assert i < |a| ==> LimbExact(w, a, m, r, r', c, i);
    }
  }

  lemma ChainedTail(w: nat, a: seq<nat>, m: nat, r: seq<nat>, r': seq<nat>, c: seq<nat>)
    requires Chained(w, a, m, r, r', c) && a != []
    ensures Chained(w, a[1..], m, r[1..], r'[1..], c[1..])
  {
    forall i | 0 <= i < |a| - 1
      ensures LimbExact(w, a[1..], m, r[1..], r'[1..], c[1..], i)
    {
      assert LimbExact(w, a, m, r, r', c, i + 1);
    }
  }

  /** Then no carry is lost: the result with the last carry as its top limb is exactly `a * m + r + c0`. */
  lemma {:induction false} CarryChainIsExact(w: nat, a: seq<nat>, m: nat, r: seq<nat>, r': seq<nat>, c: seq<nat>)
    requires Chained(w, a, m, r, r', c)
    ensures Value(r' + [c[|a|]], w) == Value(a, w) * m + Value(r, w) + c[0]
  {
    if a != [] {
      ChainedTail(w, a, m, r, r', c);
      CarryChainIsExact(w, a[1..], m, r[1..], r'[1..], c[1..]);
      var top := c[|a|];
      var x := Value(r'[1..] + [top], w);
      assert Value(r' + [top], w) == r'[0] + w * x by {
        assert (r' + [top])[1..] == r'[1..] + [top];
      }
      assert r'[0] + c[1] * w == a[0] * m + r[0] + c[0] by {
        assert LimbExact(w, a, m, r, r', c, 0);
      }
      CarryStep(w, r'[0], x, a[0], Value(a[1..], w), m, r[0], Value(r[1..], w), c[0], c[1]);
    }
  }

  lemma CarryStep(w: nat, r': nat, x: nat, a: nat, y: nat, m: nat, r: nat, z: nat, c: nat, c1: nat)
    requires r' + c1 * w == a * m + r + c && x == y * m + z + c1
    ensures r' + w * x == (a + w * y) * m + (r + w * z) + c
  {
    assert w * (y * m + z + c1) == (w * y) * m + w * z + c1 * w;
    assert (a + w * y) * m == a * m + (w * y) * m;
  }

  // ---------------------------------------------------------------- the build forms

  /** The four ways the macros can be compiled. */
  datatype Form = DoubleWord | TwoWordMultiply | HighWordMultiply | HalfWords

  method MulAdd(form: Form, b: nat, r: nat, a: nat, w: nat, c: nat) returns (r': nat, c': nat)
    requires IsBase(b) && r < W(b) && a < W(b) && w < W(b) && c < W(b)
    ensures Exact(r', c', a * w + r + c, W(b))
  {
    match form
    case DoubleWord => r', c' := MulAddLlong(b, r, a, w, c);
    case TwoWordMultiply => r', c' := MulAddLohi(b, r, a, w, c);
    case HighWordMultiply => r', c' := MulAddHigh(b, r, a, w, c);
    case HalfWords =>
      Halves(b, w);
      r', c' := MulAddHalf(b, r, a, w % b, (w / b) % b, c);
  }

  method Mul(form: Form, b: nat, a: nat, w: nat, c: nat) returns (r': nat, c': nat)
    requires IsBase(b) && a < W(b) && w < W(b) && c < W(b)
    ensures Exact(r', c', a * w + c, W(b))
  {
    match form
    case DoubleWord => r', c' := MulLlong(b, a, w, c);
    case TwoWordMultiply => r', c' := MulLohi(b, a, w, c);
    case HighWordMultiply => r', c' := MulHigh(b, a, w, c);
    case HalfWords =>
      Halves(b, w);
      r', c' := MulHalf(b, a, w % b, (w / b) % b, c);
  }

  // ---------------------------------------------------------------- a vector times a word

  /** One row of work: `n` limbs of `ap` from `ao` on, times `m`, into those of `rp` from `ro` on. The limbs were
      `a` and, where they are added to, `r` at the start; otherwise `r` is zero. `all` is what `rp` held. */
  datatype Row = Row(add: bool, n: nat, a: seq<nat>, m: nat, r: seq<nat>, all: seq<nat>) {
    ghost predicate Valid(w: nat) {
      |a| == |r| == n && AreWords(a, w) && AreWords(r, w) && m < w && (!add ==> forall i | 0 <= i < n :: r[i] == 0)
    }
  }

  /** The two vectors lie in their arrays, and writing limb `i` of the result spares the later limbs of `ap`. */
  ghost predicate Placed(row: Row, rp: array<nat>, ro: nat, ap: array<nat>, ao: nat) {
    ro + row.n <= rp.Length && ao + row.n <= ap.Length && (rp == ap ==> ro <= ao || ao + row.n <= ro)
  }

  /** The first `i` limbs are done, with the carries `c`, and the others are as they were. */
  ghost predicate RowDone(w: nat, row: Row, rp: array<nat>, ro: nat, ap: array<nat>, ao: nat, i: nat, c: seq<nat>)
    reads rp, ap
  {
    && row.Valid(w) && Placed(row, rp, ro, ap, ao) && i <= row.n
    && Chained(w, row.a[..i], row.m, row.r[..i], rp[ro..ro + i], c)
    && c[0] == 0 && c[i] < w
    && (row.add ==> rp[ro + i..ro + row.n] == row.r[i..])
    && ap[ao + i..ao + row.n] == row.a[i..]
    && |row.all| == rp.Length && rp[..ro] == row.all[..ro] && rp[ro + row.n..] == row.all[ro + row.n..]
  }

  /** `mul_add`, or `mul` which ignores what the limb held. */
  method Macro(form: Form, add: bool, b: nat, r: nat, a: nat, w: nat, c: nat) returns (r': nat, c': nat)
    requires IsBase(b) && (add ==> r < W(b)) && a < W(b) && w < W(b) && c < W(b)
    ensures Exact(r', c', a * w + (if add then r else 0) + c, W(b))
  {
    if add {
      r', c' := MulAdd(form, b, r, a, w, c);
    } else {
      r', c' := Mul(form, b, a, w, c);
    }
  }

  method PutLimb(rp: array<nat>, ro: nat, ap: array<nat>, ao: nat, i: nat, x: nat, ghost row: Row)
    requires Placed(row, rp, ro, ap, ao) && i < row.n
    modifies rp
    ensures rp[ro..ro + (i + 1)] == old(rp[ro..ro + i]) + [x]
    ensures rp[ro + (i + 1)..ro + row.n] == old(rp[ro + i..ro + row.n])[1..]
    ensures ap[ao + (i + 1)..ao + row.n] == old(ap[ao + i..ao + row.n])[1..]
    ensures rp[..ro] == old(rp[..ro]) && rp[ro + row.n..] == old(rp[ro + row.n..])
  {
    rp[ro + i] := x;
  }

  /** One use of the macro. */
  method RowStep(form: Form, b: nat, rp: array<nat>, ro: nat, ap: array<nat>, ao: nat, add: bool, m: nat, c: nat,
                 i: nat, ghost row: Row, ghost cs: seq<nat>)
    returns (c': nat, ghost cs': seq<nat>)
    requires IsBase(b) && RowDone(W(b), row, rp, ro, ap, ao, i, cs) && i < row.n
    requires add == row.add && m == row.m && c == cs[i]
    modifies rp
    ensures RowDone(W(b), row, rp, ro, ap, ao, i + 1, cs') && c' == cs'[i + 1]
  {
    var a, r := ap[ao + i], rp[ro + i];
    assert a == ap[ao + i..ao + row.n][0] == row.a[i];
    assert add ==> r == rp[ro + i..ro + row.n][0] == row.r[i];
    r, c' := Macro(form, add, b, r, a, m, c);
    cs' := cs + [c'];
    ChainedSnoc(W(b), row.a[..i], m, row.r[..i], rp[ro..ro + i], cs, a, row.r[i], r, c');
    PutLimb(rp, ro, ap, ao, i, r, row);
    assert row.a[..i + 1] == row.a[..i] + [a] && row.a[i + 1..] == row.a[i..][1..];
    assert row.r[..i + 1] == row.r[..i] + [row.r[i]] && row.r[i + 1..] == row.r[i..][1..];
  }

  method FourSteps(form: Form, b: nat, rp: array<nat>, ro: nat, ap: array<nat>, ao: nat, add: bool, m: nat, c: nat,
                   i: nat, ghost row: Row, ghost cs: seq<nat>)
    returns (c': nat, ghost cs': seq<nat>)
    requires IsBase(b) && RowDone(W(b), row, rp, ro, ap, ao, i, cs) && i + 4 <= row.n
    requires add == row.add && m == row.m && c == cs[i]
    modifies rp
    ensures RowDone(W(b), row, rp, ro, ap, ao, i + 4, cs') && c' == cs'[i + 4]
  {
    c', cs' := RowStep(form, b, rp, ro, ap, ao, add, m, c, i, row, cs);
    c', cs' := RowStep(form, b, rp, ro, ap, ao, add, m, c', i + 1, row, cs');
    c', cs' := RowStep(form, b, rp, ro, ap, ao, add, m, c', i + 2, row, cs');
    c', cs' := RowStep(form, b, rp, ro, ap, ao, add, m, c', i + 3, row, cs');
  }

  /** The loops: four limbs at a time, then the others one by one. */
  method MulRow(form: Form, b: nat, rp: array<nat>, ro: nat, ap: array<nat>, ao: nat, add: bool, n: nat, m: nat,
                ghost row: Row)
    returns (c: nat, ghost cs: seq<nat>)
    requires IsBase(b) && RowDone(W(b), row, rp, ro, ap, ao, 0, [0]) && add == row.add && n == row.n && m == row.m
    modifies rp
    ensures RowDone(W(b), row, rp, ro, ap, ao, n, cs) && c == cs[n]
  {
    c, cs := 0, [0];
    var i: nat := 0;
    while n - i >= 4
      invariant RowDone(W(b), row, rp, ro, ap, ao, i, cs) && c == cs[i]
    {
      c, cs := FourSteps(form, b, rp, ro, ap, ao, add, m, c, i, row, cs);
      i := i + 4;
    }
    c, cs := LastSteps(form, b, rp, ro, ap, ao, add, n, m, c, i, row, cs);
  }

  method LastSteps(form: Form, b: nat, rp: array<nat>, ro: nat, ap: array<nat>, ao: nat, add: bool, n: nat, m: nat,
                   c: nat, start: nat, ghost row: Row, ghost cs: seq<nat>)
    returns (c': nat, ghost cs': seq<nat>)
    requires IsBase(b) && RowDone(W(b), row, rp, ro, ap, ao, start, cs)
    requires add == row.add && n == row.n && m == row.m && c == cs[start]
    modifies rp
    ensures RowDone(W(b), row, rp, ro, ap, ao, n, cs') && c' == cs'[n]
  {
    c', cs' := c, cs;
    for i := start to n
      invariant RowDone(W(b), row, rp, ro, ap, ao, i, cs') && c' == cs'[i]
    {
      c', cs' := RowStep(form, b, rp, ro, ap, ao, add, m, c', i, row, cs');
    }
  }

  /** The whole row: result and carry are the exact product, plus what was there where it is added to. */
  ghost predicate RowExact(w: nat, row: Row, r': seq<nat>, c: nat) {
    && |r'| == row.n && AreWords(r', w) && c < w
    && Value(r' + [c], w) == Value(row.a, w) * row.m + Value(row.r, w)
  }

  lemma RowIsExact(w: nat, row: Row, r': seq<nat>, cs: seq<nat>)
    requires row.Valid(w) && Chained(w, row.a[..row.n], row.m, row.r[..row.n], r', cs) && cs[0] == 0 && cs[row.n] < w
    ensures RowExact(w, row, r', cs[row.n])
  {
    assert row.a[..row.n] == row.a && row.r[..row.n] == row.r;
    CarryChainIsExact(w, row.a, row.m, row.r, r', cs);
    forall i | 0 <= i < |r'|
      ensures r'[i] < w
    {
      assert LimbExact(w, row.a, row.m, row.r, r', cs, i);
    }
  }

  function Count(num: int): (n: nat) {
    if num > 0 then num else 0
  }

  /** `bn_mul_add_words`: `rp += ap * w`, with the top limb returned. The vectors may overlap as long as no limb is
      overwritten before it is read. */
  method BnMulAddWords(form: Form, b: nat, rp: array<nat>, ro: nat, ap: array<nat>, ao: nat, num: int, w: nat)
    returns (c: nat)
    requires var n := Count(num);
             && ro + n <= rp.Length && ao + n <= ap.Length && (rp == ap ==> ro <= ao || ao + n <= ro)
             && AreWords(rp[ro..ro + n], W(b)) && AreWords(ap[ao..ao + n], W(b))
    requires IsBase(b) && w < W(b)
    modifies rp
    ensures var n := Count(num);
            && c < W(b) && AreWords(rp[ro..ro + n], W(b))
            && Value(rp[ro..ro + n] + [c], W(b))
               == Value(old(ap[ao..ao + n]), W(b)) * w + Value(old(rp[ro..ro + n]), W(b))
            && rp[..ro] == old(rp[..ro]) && rp[ro + n..] == old(rp[ro + n..])
  {
    if num <= 0 {
      return 0;
    }
    ghost var row := Row(true, num, ap[ao..ao + num], w, rp[ro..ro + num], rp[..]);
    ghost var cs;
    c, cs := MulRow(form, b, rp, ro, ap, ao, true, num, w, row);
    RowIsExact(W(b), row, rp[ro..ro + num], cs);
  }

  /** `bn_mul_words`: `rp = ap * w`, whatever the limbs of `rp` held, with the top limb returned. */
  method BnMulWords(form: Form, b: nat, rp: array<nat>, ro: nat, ap: array<nat>, ao: nat, num: int, w: nat)
    returns (c: nat)
    requires var n := Count(num);
             && ro + n <= rp.Length && ao + n <= ap.Length && (rp == ap ==> ro <= ao || ao + n <= ro)
             && AreWords(ap[ao..ao + n], W(b))
    requires IsBase(b) && w < W(b)
    modifies rp
    ensures var n := Count(num);
            && c < W(b) && AreWords(rp[ro..ro + n], W(b))
            && Value(rp[ro..ro + n] + [c], W(b)) == Value(old(ap[ao..ao + n]), W(b)) * w
            && rp[..ro] == old(rp[..ro]) && rp[ro + n..] == old(rp[ro + n..])
  {
    if num <= 0 {
      return 0;
    }
    ghost var row := Row(false, num, ap[ao..ao + num], w, seq(num, _ => 0), rp[..]);
    assert row.Valid(W(b)) by { BaseFits(b); }
    ghost var cs;
    c, cs := MulRow(form, b, rp, ro, ap, ao, false, num, w, row);
    RowIsExact(W(b), row, rp[ro..ro + num], cs);
    ZerosValue(row.r, W(b));
  }

  lemma {:induction false} ZerosValue(xs: seq<nat>, w: nat)
    requires forall i | 0 <= i < |xs| :: xs[i] == 0
    ensures Value(xs, w) == 0
  {
    if xs != [] {
      ZerosValue(xs[1..], w);
    }
  }

  // ---------------------------------------------------------------- a vector times a vector

  /** A new row in numbers: `lo` and `mid` were the product of `a` and `y`, which gains the limb `x` of weight `p`. */
  lemma RowAdded(lo: nat, p: nat, mid: nat, mid': nat, a: nat, y: nat, x: nat, v': nat, y': nat)
    requires lo + p * mid == a * y && mid' == a * x + mid && v' == lo + p * mid' && y' == y + p * x
    ensures v' == a * y'
  {
    assert p * (a * x + mid) == p * (a * x) + p * mid;
    assert p * (a * x) == a * (p * x);
    assert a * (y + p * x) == a * y + a * (p * x);
  }

  /** The limbs `lo`, then `mid'` and `c`, are the product of `a` with one limb more than `lo + mid` was. */
  lemma RowsAdded(w: nat, a: seq<nat>, y: seq<nat>, x: nat, lo: seq<nat>, mid: seq<nat>, mid': seq<nat>, c: nat)
    requires |lo| == |y|
    requires Value(lo + mid, w) == Value(a, w) * Value(y, w)
    requires Value(mid' + [c], w) == Value(a, w) * x + Value(mid, w)
    ensures Value(lo + mid' + [c], w) == Value(a, w) * Value(y + [x], w)
  {
    var p := Pow(w, |lo|);
    assert lo + mid' + [c] == lo + (mid' + [c]);
    ValueAppend(lo, mid, w);
    ValueAppend(lo, mid' + [c], w);
    ValueSnoc(y, x, w, p);
    RowAdded(Value(lo, w), p, Value(mid, w), Value(mid' + [c], w), Value(a, w), Value(y, w), x,
             Value(lo + mid' + [c], w), Value(y + [x], w));
  }

  lemma Cut(all: seq<nat>, i: nat, m: nat, lo: seq<nat>, mid: seq<nat>, c: nat)
    requires i <= m < |all| && lo == all[..i] && mid == all[i..m] && c == all[m]
    ensures all[i..m + 1] == mid + [c] && all[..m + 1] == lo + mid + [c] == lo + all[i..m + 1]
  {
  }

  lemma WordsJoin(lo: seq<nat>, hi: seq<nat>, all: seq<nat>, w: nat)
    requires all == lo + hi && AreWords(lo, w) && AreWords(hi, w)
    ensures AreWords(all, w)
  {
  }

  lemma WordsSplit(lo: seq<nat>, hi: seq<nat>, all: seq<nat>, w: nat)
    requires all == lo + hi && AreWords(all, w)
    ensures AreWords(lo, w) && AreWords(hi, w)
  {
    assert forall i | 0 <= i < |lo| :: lo[i] == all[i];
    assert forall i | 0 <= i < |hi| :: hi[i] == all[|lo| + i];
  }

  /** The first row of the product, whatever `r` held. */
  method FirstRow(form: Form, b: nat, r: array<nat>, a: array<nat>, n: nat, x: nat)
    requires IsBase(b) && x < W(b) && 0 < n <= a.Length && n < r.Length && r != a && AreWords(a[..n], W(b))
    modifies r
    ensures AreWords(r[..n + 1], W(b)) && Value(r[..n + 1], W(b)) == Value(a[..n], W(b)) * x
  {
    assert a[0..n] == a[..n];
    var c := BnMulWords(form, b, r, 0, a, 0, n, x);
    ghost var row := r[0..n];
    r[n] := c;
    assert r[..n + 1] == row + [c];
  }

  /** Row `i` of the product: one limb times `a` is added at place `i`, and its top limb goes behind. */
  method AddRow(form: Form, b: nat, r: array<nat>, a: array<nat>, n: nat, x: nat, i: nat, ghost y: seq<nat>)
    requires IsBase(b) && x < W(b) && n <= a.Length && |y| == i && n + i < r.Length && r != a
    requires AreWords(a[..n], W(b)) && AreWords(r[..n + i], W(b))
    requires Value(r[..n + i], W(b)) == Value(a[..n], W(b)) * Value(y, W(b))
    modifies r
    ensures AreWords(r[..n + i + 1], W(b))
    ensures Value(r[..n + i + 1], W(b)) == Value(a[..n], W(b)) * Value(y + [x], W(b))
  {
    ghost var lo, mid := r[..i], r[i..i + n];
    assert r[..n + i] == lo + mid && a[0..n] == a[..n];
    WordsSplit(lo, mid, r[..n + i], W(b));
    var c := BnMulAddWords(form, b, r, i, a, 0, n, x);
    ghost var mid' := r[i..i + n];
    r[n + i] := c;
    Cut(r[..], i, n + i, lo, mid', c);
    WordsJoin(lo, r[i..n + i + 1], r[..n + i + 1], W(b));
    RowsAdded(W(b), a[..n], y, x, lo, mid, mid', c);
  }

  /** The product, row by row, of all limbs of both numbers; the source has it for four and for eight limbs. */
  method MulComba(form: Form, b: nat, r: array<nat>, a: array<nat>, y: array<nat>, n: nat)
    requires IsBase(b) && 0 < n <= a.Length && n <= y.Length && 2 * n <= r.Length && r != a && r != y
    requires AreWords(a[..n], W(b)) && AreWords(y[..n], W(b))
    modifies r
    ensures AreWords(r[..2 * n], W(b))
    ensures Value(r[..2 * n], W(b)) == Value(a[..n], W(b)) * Value(y[..n], W(b))
  {
    assert y[0] == y[..n][0] && y[..1] == [] + [y[0]];
    ValueSnoc([], y[0], W(b), 1);
    FirstRow(form, b, r, a, n, y[0]);
    for i := 1 to n
      invariant AreWords(r[..n + i], W(b))
      invariant Value(r[..n + i], W(b)) == Value(a[..n], W(b)) * Value(y[..i], W(b))
    {
      assert y[i] == y[..n][i] && y[..i + 1] == y[..i] + [y[i]];
      AddRow(form, b, r, a, n, y[i], i, y[..i]);
    }
    assert n + n == 2 * n;
  }

  // ---------------------------------------------------------------- a bignum times a word

  lemma {:induction false} ValueBelow(xs: seq<nat>, w: nat)
    requires AreWords(xs, w)
    ensures Value(xs, w) < Pow(w, |xs|)
  {
    if xs != [] {
      ValueBelow(xs[1..], w);
      var v, p := Value(xs[1..], w), Pow(w, |xs| - 1);
      MulMono(w, v + 1, w, p);
      assert w * (v + 1) == w * v + w;
    }
  }

  /** No leading zero limb. */
  ghost predicate Normal(xs: seq<nat>) {
    xs != [] ==> xs[|xs| - 1] != 0
  }

  lemma NormalAtLeast(xs: seq<nat>, w: nat)
    requires Normal(xs) && xs != []
    ensures Value(xs, w) >= Pow(w, |xs| - 1)
  {
    var n := |xs| - 1;
    assert xs == xs[..n] + [xs[n]];
    ValueSnoc(xs[..n], xs[n], w, Pow(w, n));
    MulMono(Pow(w, n), 1, Pow(w, n), xs[n]);
  }

  /** A product that needs no limb more has no leading zero either. */
  lemma ProductIsNormal(xs: seq<nat>, ys: seq<nat>, m: nat, w: nat)
    requires Normal(xs) && |ys| == |xs| && AreWords(ys, w) && m > 0
    requires Value(ys + [0], w) == Value(xs, w) * m
    ensures Normal(ys) && Value(ys, w) == Value(xs, w) * m
  {
    ValueSnoc(ys, 0, w, Pow(w, |ys|));
    if ys != [] && ys[|ys| - 1] == 0 {
      var n := |ys| - 1;
      assert ys == ys[..n] + [0];
      ValueSnoc(ys[..n], 0, w, Pow(w, n));
      ValueBelow(ys[..n], w);
      NormalAtLeast(xs, w);
      MulMono(Value(xs, w), 1, Value(xs, w), m);
    }
  }

  /** A number that is not negative: its limbs in use are the first `top` of `d`. */
  class Bignum {
    const b: nat
    var d: array<nat>
    var top: nat

    ghost predicate Valid()
      reads this, d
    {
      IsBase(b) && top <= d.Length && AreWords(d[..top], W(b)) && Normal(d[..top])
    }

    ghost function Number(): (v: nat)
      requires Valid()
      reads this, d
    {
      Value(d[..top], W(b))
    }

    constructor (b: nat)
      requires IsBase(b)
      ensures this.b == b && Valid() && Number() == 0 && fresh(d)
    {
      this.b := b;
      d, top := new nat[0], 0;
    }

    /** `bn_wexpand`: room for one limb more, unless there is no memory. */
    method Expand(memory: bool) returns (ok: bool)
      requires top <= d.Length
      modifies this`d
      ensures ok <==> old(top < d.Length) || memory
      ensures if ok && old(top == d.Length) then fresh(d) else d == old(d)
      ensures top <= d.Length && d[..top] == old(d[..top]) && (ok ==> top < d.Length)
    {
      ok := true;
      if top == d.Length {
        if !memory {
          return false;
        }
        var e := new nat[top + 1](_ => 0);
        forall i | 0 <= i < top {
          e[i] := d[i];
        }
        d := e;
      }
    }

    method Push(c: nat, memory: bool) returns (ok: bool)
      requires top <= d.Length
      modifies this, d
      ensures d == old(d) || fresh(d)
      ensures if ok then top == old(top) + 1 <= d.Length && d[..top] == old(d[..top]) + [c]
              else !memory && d == old(d) && top == old(top) == d.Length && d[..top] == old(d[..top])
    {
      ok := Expand(memory);
      if ok {
        ghost var xs := d[..top];
        d[top] := c;
        top := top + 1;
        assert d[..top] == xs + [c];
      }
    }

    /** `BN_mul_word`: the number becomes the product, without a leading zero limb. It fails only if a limb more,
        `c`, is needed and there is no memory for it; the other limbs are those of the product even then. */
    method MulWord(form: Form, word: nat, memory: bool) returns (ok: bool, ghost c: nat)
      requires Valid()
      modifies this, d
      ensures d == old(d) || fresh(d)
      ensures ok ==> Valid() && Number() == old(Number()) * (word % W(b))
      ensures !ok ==>
                && !memory && top == old(top) == d.Length
                && 0 < c < W(b) && Value(d[..top] + [c], W(b)) == old(Number()) * (word % W(b))
    {
      BaseFits(b);
      var w := word % W(b);
      ghost var xs := d[..top];
      c := 0;
      if top == 0 {
        return true, c;
      }
      if w == 0 {
        top := 0;
        return true, c;
      }
      var ll := Times(form, w);
      c := ll;
      if ll == 0 {
        ProductIsNormal(xs, d[..top], w, W(b));
        return true, c;
      }
      ghost var ys := d[..top];
      ok := Push(ll, memory);
      if ok {
        assert d[..top] == ys + [c];
      }
    }

    /** All limbs in use times a word, in place; the top limb of the product is returned. */
    method Times(form: Form, w: nat) returns (c: nat)
      requires Valid() && w < W(b)
      modifies d
      ensures c < W(b) && AreWords(d[..top], W(b))
      ensures Value(d[..top] + [c], W(b)) == old(Number()) * w
    {
      assert d[0..top] == d[..top];
      c := BnMulWords(form, b, d, 0, d, 0, top, w);
      assert d[0..top] == d[..top];
    }
  }
}
