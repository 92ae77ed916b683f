/**
  The word-multiplication macros of BaseLib/AES/include/bn_lcl.h in all four build forms. A word is a number
  below W = B * B, where B is the half-word base 2^BN_BITS4; nothing below needs more than that B is even.
  Every addition and product of the macros is taken modulo the word (or double word) it is computed in.
 */
module WordMul {

  predicate IsBase(b: nat) {
    b >= 2 && b % 2 == 0
  }

  function W(b: nat): (w: nat)
  {
    b * b
  }

  /** The word with low half `l` and high half `h`. */
  function Word(b: nat, l: nat, h: nat): (w: nat) {
    l + h * b
  }

  // ---------------------------------------------------------------- arithmetic

  lemma DivModUnique(x: nat, d: nat, q: nat, r: nat)
    requires r < d && x == q * d + r
    ensures x / d == q && x % d == r
  {
    var q', r' := x / d, x % d;
    assert x == q' * d + r' && 0 <= r' < d;
    if q < q' {
      OneMore(q, q', d);
    } else if q' < q {
      OneMore(q', q, d);
    }
  }

  lemma OneMore(q: nat, q': nat, d: nat)
    requires q < q'
    ensures q * d + d <= q' * d
  {
    assert (q + 1) * d <= q' * d;
    assert (q + 1) * d == q * d + d;
  }

  lemma Divide(x: nat, d: nat) returns (q: nat, r: nat)
    requires d > 0
    ensures x == q * d + r && r < d && q == x / d && r == x % d
  {
    q, r := x / d, x % d;
  }

  /** Adding modulo the word and testing `sum < addend` recovers the carry. */
  lemma AddCarry(x: nat, y: nat, w: nat)
    requires x < w && y < w
    ensures (x + y) % w == (if x + y < w then x + y else x + y - w)
    ensures (x + y) % w < y <==> x + y >= w
  {
    if x + y < w {
      DivModUnique(x + y, w, 0, x + y);
    } else {
      DivModUnique(x + y, w, 1, x + y - w);
    }
  }

  lemma Small(x: nat, w: nat)
    requires x < w
    ensures x % w == x && x / w == 0
  {
    DivModUnique(x, w, 0, x);
  }

  lemma MulMono(a: nat, b: nat, c: nat, d: nat)
    requires a <= c && b <= d
    ensures a * b <= c * d
  {
    assert a * b <= a * d;
    assert a * d <= c * d;
  }

  lemma Below(h: nat, l: nat, w: nat, p: int)
    requires l + h * w == p && p < w * w
    ensures h < w
  {
    if h >= w {
      MulMono(w, w, h, w);
    }
  }

  /** A product plus two words still fits a double word. */
  lemma DoubleWordRoom(a: nat, b: nat, r: nat, c: nat, w: nat)
    requires a < w && b < w && r < w && c < w
    ensures a * b + r + c < w * w
  {
    MulMono(a, b, w - 1, w - 1);
    assert (w - 1) * (w - 1) + (w - 1) + (w - 1) == w * w - 1;
  }

  lemma SplitDouble(t: nat, w: nat)
    requires t < w * w && w > 0
    ensures t % w < w && t / w < w && (t / w) % w == t / w
    ensures t % w + (t / w) * w == t
  {
    Below(t / w, t % w, w, t);
    Small(t / w, w);
  }

  /** What a multiply-and-accumulate step has to produce: the exact value over two words. */
  ghost predicate Exact(r': nat, c': nat, value: int, w: nat) {
    r' < w && c' < w && r' + c' * w == value
  }

  /** Two words are determined by their value, so any two exact forms agree. */
  lemma FormsAgree(r: nat, c: nat, r': nat, c': nat, value: int, w: nat)
    requires Exact(r, c, value, w) && Exact(r', c', value, w)
    ensures r == r' && c == c'
  {
    assert value >= 0;
    DivModUnique(value, w, c, r);
    DivModUnique(value, w, c', r');
  }

  // ---------------------------------------------------------------- BN_LLONG

  /** A double word and its two halves. */
  method SplitWords(w: nat, t: nat) returns (lo: nat, hi: nat)
    requires t < w * w && w > 0
    ensures Exact(lo, hi, t, w)
  {
    SplitDouble(t, w);
    lo := t % w;
    hi := (t / w) % w;
  }

  method MulAddLlong(b: nat, r: nat, a: nat, w: nat, c: nat) returns (r': nat, c': nat)
    requires IsBase(b) && r < W(b) && a < W(b) && w < W(b) && c < W(b)
    ensures Exact(r', c', a * w + r + c, W(b))
  {
    r', c' := DoubleWordSum(W(b), a, w, r, c);
  }

  /** The product and both summands in one double word, then cut. */
  method DoubleWordSum(base: nat, a: nat, w: nat, r: nat, c: nat) returns (lo: nat, hi: nat)
    requires a < base && w < base && r < base && c < base
    ensures Exact(lo, hi, a * w + r + c, base)
  {
    DoubleWordRoom(a, w, r, c, base);
    var sum := w * a + r + c;
    var double := base * base;
    assert sum == a * w + r + c < double;
    Small(sum, double);
    lo, hi := SplitWords(base, sum % double);
  }

  method MulLlong(b: nat, a: nat, w: nat, c: nat) returns (r': nat, c': nat)
    requires IsBase(b) && a < W(b) && w < W(b) && c < W(b)
    ensures Exact(r', c', a * w + c, W(b))
  {
    r', c' := DoubleWordSum(W(b), a, w, 0, c);
  }

  // ---------------------------------------------------------------- BN_UMULT_LOHI and BN_UMULT_HIGH

  /** The hardware multiply: both halves of the double-word product. */
  function UmultHigh(b: nat, x: nat, y: nat): (h: nat)
    requires IsBase(b)
  {
    (x * y) / W(b)
  }

  method UmultLohi(b: nat, x: nat, y: nat) returns (lo: nat, hi: nat)
    requires IsBase(b) && x < W(b) && y < W(b)
    ensures Exact(lo, hi, x * y, W(b)) && lo == (x * y) % W(b) && hi == UmultHigh(b, x, y)
  {
    DoubleWordRoom(x, y, 0, 0, W(b));
    SplitDouble(x * y, W(b));
    lo, hi := (x * y) % W(b), UmultHigh(b, x, y);
  }

  method MulAddLohi(b: nat, r: nat, a: nat, w: nat, c: nat) returns (r': nat, c': nat)
    requires IsBase(b) && r < W(b) && a < W(b) && w < W(b) && c < W(b)
    ensures Exact(r', c', a * w + r + c, W(b))
  {
    var low, high := UmultLohi(b, w, a);
    DoubleWordRoom(a, w, r, c, W(b));
    r', c' := AddTwice(W(b), r, a * w, low, high, c);
  }

  method MulAddHigh(b: nat, r: nat, a: nat, w: nat, c: nat) returns (r': nat, c': nat)
    requires IsBase(b) && r < W(b) && a < W(b) && w < W(b) && c < W(b)
    ensures Exact(r', c', a * w + r + c, W(b))
  {
    var high := UmultHigh(b, w, a);
    var low := (w * a) % W(b);
    DoubleWordRoom(a, w, 0, 0, W(b));
    SplitDouble(a * w, W(b));
    DoubleWordRoom(a, w, r, c, W(b));
    r', c' := AddTwice(W(b), r, a * w, low, high, c);
  }

  /** Addition in a word. */
  method AddWord(w: nat, x: nat, y: nat) returns (s: nat)
    requires x < w && y < w
    ensures s < w && s == if x + y < w then x + y else x + y - w
    ensures s < y <==> x + y >= w
  {
    AddCarry(x, y, w);
    s := (x + y) % w;
  }

  /** Two low-word carries `k1`, `k2` on top of a double-word product. */
  lemma CarriesFit(w: nat, sum: nat, low: nat, high: nat, k1: nat, k2: nat, total: int)
    requires k1 <= 1 && k2 <= 1
    requires total == low + high * w + sum && total < w * w
    requires k1 * w + k2 * w <= low + sum
    ensures high + k1 + k2 < w
    ensures (high + k1 + k2) * w == high * w + k1 * w + k2 * w
  {
    assert (high + k1 + k2) * w == high * w + k1 * w + k2 * w;
    Below(high + k1 + k2, total - (high + k1 + k2) * w, w, total);
  }

  /** The carry chain both `mul_add` forms share: first `c`, then the low product word. */
  method AddTwice(w: nat, r: nat, ghost prod: int, low: nat, high: nat, c: nat) returns (r': nat, c': nat)
    requires r < w && c < w && Exact(low, high, prod, w) && prod + r + c < w * w
    ensures Exact(r', c', prod + r + c, w)
  {
    var ret := AddWord(w, r, c);
    var k1 := if ret < c then 1 else 0;
    r' := AddWord(w, ret, low);
    var k2 := if r' < low then 1 else 0;
    CarriesFit(w, r + c, low, high, k1, k2, prod + r + c);
    c' := AddWord(w, k1, high);
    c' := AddWord(w, c', k2);
  }

  method MulLohi(b: nat, a: nat, w: nat, c: nat) returns (r': nat, c': nat)
    requires IsBase(b) && a < W(b) && w < W(b) && c < W(b)
    ensures Exact(r', c', a * w + c, W(b))
  {
    var low, high := UmultLohi(b, w, a);
    DoubleWordRoom(a, w, 0, c, W(b));
    r', c' := AddOnce(W(b), a * w, low, high, c);
  }

  method MulHigh(b: nat, a: nat, w: nat, c: nat) returns (r': nat, c': nat)
    requires IsBase(b) && a < W(b) && w < W(b) && c < W(b)
    ensures Exact(r', c', a * w + c, W(b))
  {
    var low := (w * a) % W(b);
    var high := UmultHigh(b, w, a);
    DoubleWordRoom(a, w, 0, 0, W(b));
    SplitDouble(a * w, W(b));
    DoubleWordRoom(a, w, 0, c, W(b));
    r', c' := AddOnce(W(b), a * w, low, high, c);
  }

  method AddOnce(w: nat, ghost prod: int, low: nat, high: nat, c: nat) returns (r': nat, c': nat)
    requires c < w && Exact(low, high, prod, w) && prod + c < w * w
    ensures Exact(r', c', prod + c, w)
  {
    r' := AddWord(w, c, low);
    var k := if r' < low then 1 else 0;
    CarriesFit(w, c, low, high, k, 0, prod + c);
    c' := AddWord(w, high, k);
  }

  // ---------------------------------------------------------------- half-word form

  lemma Halves(b: nat, a: nat)
    requires IsBase(b) && a < W(b)
    ensures a % b < b && a / b < b && (a / b) % b == a / b
    ensures Word(b, a % b, a / b) == a
  {
    SplitDouble(a, b);
  }

  lemma HalfProduct(b: nat, l: nat, h: nat, bl: nat, bh: nat)
    ensures Word(b, l, h) * Word(b, bl, bh) == bl * l + (bh * l + bl * h) * b + (bh * h) * W(b)
  {
    calc {
      (l + h * b) * (bl + bh * b);
      (l + h * b) * bl + (l + h * b) * (bh * b);
      { assert (l + h * b) * bl == l * bl + (h * b) * bl; }
      l * bl + (h * b) * bl + (l + h * b) * (bh * b);
      { assert (l + h * b) * (bh * b) == l * (bh * b) + (h * b) * (bh * b); }
      l * bl + (h * b) * bl + l * (bh * b) + (h * b) * (bh * b);
      { assert (h * b) * bl == (bl * h) * b; assert l * (bh * b) == (bh * l) * b; }
      bl * l + (bl * h) * b + (bh * l) * b + (h * b) * (bh * b);
      { assert (h * b) * (bh * b) == (bh * h) * (b * b); }
      bl * l + (bl * h) * b + (bh * l) * b + (bh * h) * W(b);
      { assert (bh * l + bl * h) * b == (bh * l) * b + (bl * h) * b; }
      bl * l + (bh * l + bl * h) * b + (bh * h) * W(b);
    }
  }

  /** A word `q * b + r` times `b`: `q` leaves the word, `r` becomes its high half. */
  lemma ShiftLeft(b: nat, m: nat, q: nat, r: nat)
    requires m == q * b + r && r < b
    ensures m * b == q * W(b) + r * b && r * b < W(b)
  {
    assert (q * b + r) * b == (q * b) * b + r * b;
    assert (q * b) * b == q * (b * b);
    OneMore(r, b, b);
  }

  /** The middle sum with its carry, as `mul64` distributes it over the two result words. */
  lemma MiddleSum(b: nat, sum: nat, m: nat, k: nat, q: nat, r: nat)
    requires (k == 0 && m == sum) || (k == b && m == sum - W(b))
    requires m == q * b + r && r < b
    ensures sum * b == (k + q) * W(b) + r * b
  {
    ShiftLeft(b, m, q, r);
    if k == b {
      assert sum * b == m * b + W(b) * b;
      assert (b + q) * W(b) == b * W(b) + q * W(b);
    }
  }

  lemma HalfProductsFit(b: nat, x: nat, y: nat)
    requires x < b && y < b
    ensures x * y < W(b)
  {
    MulMono(x, y, b - 1, b);
    assert (b - 1) * b == b * b - b;
  }

  /** The product of two half words, computed in a word. */
  method MulHalfWords(b: nat, x: nat, y: nat) returns (p: nat)
    requires x < b && y < b
    ensures p == x * y && p < W(b)
  {
    HalfProductsFit(b, x, y);
    Small(x * y, W(b));
    p := (x * y) % W(b);
  }

  method Mul64(b: nat, l: nat, h: nat, bl: nat, bh: nat) returns (l': nat, h': nat)
    requires IsBase(b) && l < b && h < b && bl < b && bh < b
    ensures Exact(l', h', Word(b, l, h) * Word(b, bl, bh), W(b))
  {
    var m := MulHalfWords(b, bh, l);
    var lt := MulHalfWords(b, bl, l);
    var m1 := MulHalfWords(b, bl, h);
    var ht := MulHalfWords(b, bh, h);
    HalfProduct(b, l, h, bl, bh);
    FullProductFits(b, l, h, bl, bh);
    l', h' := Spread(b, m, lt, m1, ht, Word(b, l, h) * Word(b, bl, bh));
  }

  lemma FullProductFits(b: nat, l: nat, h: nat, bl: nat, bh: nat)
    requires IsBase(b) && l < b && h < b && bl < b && bh < b
    ensures Word(b, l, h) * Word(b, bl, bh) < W(b) * W(b)
  {
    WordFits(b, l, h);
    WordFits(b, bl, bh);
    DoubleWordRoom(Word(b, l, h), Word(b, bl, bh), 0, 0, W(b));
  }

  lemma WordFits(b: nat, l: nat, h: nat)
    requires l < b && h < b
    ensures Word(b, l, h) < W(b)
  {
    MulMono(h, b, b - 1, b);
    assert (b - 1) * b == b * b - b;
  }

  /** The additions of `mul64`, from the four half-word products on. */
  method Spread(b: nat, m0: nat, l0: nat, m1: nat, h0: nat, ghost prod: int) returns (l': nat, h': nat)
    requires IsBase(b) && m0 < W(b) && l0 < W(b) && m1 < W(b) && h0 < W(b)
    requires prod == l0 + (m0 + m1) * b + h0 * W(b) && prod < W(b) * W(b)
    ensures Exact(l', h', prod, W(b))
  {
    var k1, mh, ml := MiddleWord(b, m0, m1);
    l', h' := AddMiddle(W(b), l0, (m0 + m1) * b, h0, k1, mh, ml, prod);
  }

  /** The middle value, cut between the words, is added to both. */
  method AddMiddle(w: nat, l0: nat, ghost mid: int, h0: nat, k1: nat, mh: nat, ml: nat, ghost prod: int)
    returns (l': nat, h': nat)
    requires l0 < w && h0 < w && k1 < w && mh < w && ml < w
    requires mid == (k1 + mh) * w + ml && prod == l0 + mid + h0 * w && prod < w * w
    ensures Exact(l', h', prod, w)
  {
    l' := AddWord(w, l0, ml);
    var k2 := if l' < ml then 1 else 0;
    SpreadTop(w, l0, mid, h0, k1, mh, ml, k2, l', prod);
    h' := AddWord(w, h0, k1);
    h' := AddWord(w, h', mh);
    h' := AddWord(w, h', k2);
  }

  /** The middle sum: its carry, worth `b` in the high word, and its two halves moved to their words. */
  method MiddleWord(b: nat, m0: nat, m1: nat) returns (k: nat, mh: nat, ml: nat)
    requires IsBase(b) && m0 < W(b) && m1 < W(b)
    ensures k < W(b) && mh < W(b) && ml < W(b)
    ensures (m0 + m1) * b == (k + mh) * W(b) + ml
  {
    var m := AddWord(W(b), m0, m1);
    k := if m < m1 then b else 0;
    BaseFits(b);
    ghost var r;
    mh, ml, r := MiddleHalves(b, m);
    MiddleSum(b, m0 + m1, m, k, mh, r);
  }

  /** The high half as the low part of a word, and the low half as the high part of one. */
  method MiddleHalves(b: nat, m: nat) returns (mh: nat, ml: nat, ghost r: nat)
    requires IsBase(b) && m < W(b)
    ensures m == mh * b + r && r < b && ml == r * b && mh < W(b) && ml < W(b)
  {
    Halves(b, m);
    mh := (m / b) % b;
    ml := (m * b) % W(b);
    ghost var q;
    q, r := Divide(m, b);
    HighHalf(b, m, q, r);
    BaseFits(b);
  }

  lemma HighHalf(b: nat, m: nat, q: nat, r: nat)
    requires m == q * b + r && r < b
    ensures (m * b) % W(b) == r * b < W(b)
  {
    ShiftLeft(b, m, q, r);
    DivModUnique(m * b, W(b), q, r * b);
  }

  lemma BaseFits(b: nat)
    requires b >= 2
    ensures b < W(b)
  {
    MulMono(2, b, b, b);
  }

  lemma SpreadTop(w: nat, l0: nat, mid: int, h0: nat, k1: nat, mh: nat, ml: nat, k2: nat, l: nat, prod: int)
    requires k2 <= 1 && l + k2 * w == l0 + ml
    requires mid == (k1 + mh) * w + ml && prod == l0 + mid + h0 * w && prod < w * w
    ensures l + (h0 + k1 + mh + k2) * w == prod && h0 + k1 + mh + k2 < w
  {
    assert (h0 + k1 + mh + k2) * w == h0 * w + (k1 + mh) * w + k2 * w;
    Below(h0 + k1 + mh + k2, l, w, prod);
  }

  method MulAddHalf(b: nat, r: nat, a: nat, bl: nat, bh: nat, c: nat) returns (r': nat, c': nat)
    requires IsBase(b) && r < W(b) && a < W(b) && bl < b && bh < b && c < W(b)
    ensures Exact(r', c', a * Word(b, bl, bh) + r + c, W(b))
  {
    var w := W(b);
    Halves(b, a);
    var l, h := Mul64(b, a % b, (a / b) % b, bl, bh);
    WordFits(b, bl, bh);
    DoubleWordRoom(a, Word(b, bl, bh), r, c, w);
    r', c' := AddToLow(w, l, h, c, a * Word(b, bl, bh), r);
    r', c' := AddToLow(w, r', c', r, a * Word(b, bl, bh) + c, 0);
  }

  /** A word added to a double word: to the low word first, whose carry shows in that the sum got smaller. */
  method AddToLow(w: nat, l: nat, h: nat, x: nat, ghost value: int, ghost room: nat) returns (l': nat, h': nat)
    requires x < w && Exact(l, h, value, w) && value + x + room < w * w
    ensures Exact(l', h', value + x, w)
  {
    l' := AddWord(w, l, x);
    var k := if l' < x then 1 else 0;
    CarriesFit(w, x, l, h, k, 0, value + x);
    h' := AddWord(w, h, k);
  }

  method MulHalf(b: nat, a: nat, bl: nat, bh: nat, c: nat) returns (r': nat, c': nat)
    requires IsBase(b) && a < W(b) && bl < b && bh < b && c < W(b)
    ensures Exact(r', c', a * Word(b, bl, bh) + c, W(b))
  {
    Halves(b, a);
    var l, h := Mul64(b, a % b, (a / b) % b, bl, bh);
    WordFits(b, bl, bh);
    DoubleWordRoom(a, Word(b, bl, bh), 0, c, W(b));
    r', c' := AddToLow(W(b), l, h, c, a * Word(b, bl, bh), 0);
  }

  // ---------------------------------------------------------------- squaring

  lemma Scale(b: nat, k: nat, n: nat, q: nat, r: nat)
    requires b == 2 * k && n == q * k + r
    ensures n * (2 * b) == q * W(b) + r * (2 * b)
  {
    assert (q * k + r) * (2 * b) == (q * k) * (2 * b) + r * (2 * b);
    assert (q * k) * (2 * b) == q * ((2 * k) * b);
  }

  lemma Regroup(t: nat, k: nat, q: nat, r: nat)
    ensures t * (2 * k) + (q * k + r) == (2 * t + q) * k + r
  {
    assert (2 * t + q) * k == (2 * t) * k + q * k;
    assert (2 * t) * k == t * (2 * k);
  }

  /** Reducing by `2 * k` first does not change the remainder by `k`. */
  lemma SameRemainder(k: nat, m: nat, t: nat, u: nat, q: nat, r: nat)
    requires m == t * (2 * k) + u && u == q * k + r && r < k
    ensures m / k == 2 * t + q && m % k == r
  {
    Regroup(t, k, q, r);
    DivModUnique(m, k, 2 * t + q, r);
  }

  /** The doubled middle product, cut between the words: its upper bits shifted right, its lower half shifted left.
      The shift to the left drops exactly the bit that the other part keeps. */
  method DoubleMiddle(b: nat, m: nat) returns (mh: nat, ml: nat)
    requires IsBase(b) && m < W(b)
    ensures ml < W(b) && mh < W(b) && m * (2 * b) == mh * W(b) + ml
  {
    var k := b / 2;
    mh := (m - m % k) / k;
    ml := ((m % b) * (2 * b)) % W(b);
    DoubleMiddleExact(b, k, m);
  }

  lemma DoubleMiddleExact(b: nat, k: nat, m: nat)
    requires b == 2 * k && k > 0
    ensures m - m % k >= 0
    ensures var mh, ml := (m - m % k) / k, ((m % b) * (2 * b)) % W(b);
            0 <= mh <= m && ml < W(b) && m * (2 * b) == mh * W(b) + ml
  {
    var t, u := Divide(m, b);
    var q, r := Divide(u, k);
    SameRemainder(k, m, t, u, q, r);
    var n := 2 * t + q;
    MaskShift(m, k, n, r);
    LowDouble(b, k, u, q, r);
    assert m * (2 * b) == n * W(b) + r * (2 * b) && n <= m by {
      Regroup(t, k, q, r);
      Scale(b, k, m, n, r);
      MulMono(n, 1, n, k);
    }
  }

  lemma LowDouble(b: nat, k: nat, u: nat, q: nat, r: nat)
    requires b == 2 * k && u == q * k + r && r < k
    ensures (u * (2 * b)) % W(b) == r * (2 * b) < W(b)
  {
    Scale(b, k, u, q, r);
    OneMore(r, k, 2 * b);
    assert k * (2 * b) == W(b);
    DivModUnique(u * (2 * b), W(b), q, r * (2 * b));
  }

  lemma MaskShift(m: nat, k: nat, q: nat, r: nat)
    requires k > 0 && m % k == r && m / k == q
    ensures m - r >= 0 && (m - r) / k == q
  {
    assert m == q * k + r;
    DivModUnique(m - r, k, q, 0);
  }

  lemma SquareSplit(b: nat, l: nat, h: nat)
    ensures Word(b, l, h) * Word(b, l, h) == l * l + (l * h) * (2 * b) + (h * h) * W(b)
  {
    HalfProduct(b, l, h, l, h);
    assert (h * l + l * h) * b == (l * h) * (2 * b);
  }

  method Sqr64(b: nat, a: nat) returns (lo: nat, ho: nat)
    requires IsBase(b) && a < W(b)
    ensures Exact(lo, ho, a * a, W(b))
  {
    Halves(b, a);
    var l, h := a % b, (a / b) % b;
    SquareSplit(b, l, h);
    var m := MulHalfWords(b, l, h);
    var l2 := MulHalfWords(b, l, l);
    var h2 := MulHalfWords(b, h, h);
    DoubleWordRoom(a, a, 0, 0, W(b));
    lo, ho := SpreadSquare(b, m, l2, h2, a * a);
  }

  /** The additions of `sqr64`, from the three half-word products on. */
  method SpreadSquare(b: nat, m: nat, l2: nat, h2: nat, ghost square: int) returns (lo: nat, ho: nat)
    requires IsBase(b) && m < W(b) && l2 < W(b) && h2 < W(b)
    requires square == l2 + m * (2 * b) + h2 * W(b) && square < W(b) * W(b)
    ensures Exact(lo, ho, square, W(b))
  {
    var mh, ml := DoubleMiddle(b, m);
    lo, ho := AddMiddle(W(b), l2, m * (2 * b), h2, 0, mh, ml, square);
  }

  /** `sqr` where the compiler has a double word, a two-word multiply, or a high-word multiply. */
  method SqrLlong(b: nat, a: nat) returns (r0: nat, r1: nat)
    requires IsBase(b) && a < W(b)
    ensures Exact(r0, r1, a * a, W(b))
  {
    r0, r1 := MulLlong(b, a, a, 0);
  }

  method SqrHigh(b: nat, a: nat) returns (r0: nat, r1: nat)
    requires IsBase(b) && a < W(b)
    ensures Exact(r0, r1, a * a, W(b))
  {
    DoubleWordRoom(a, a, 0, 0, W(b));
    SplitDouble(a * a, W(b));
    r0 := (a * a) % W(b);
    r1 := UmultHigh(b, a, a);
  }
}
