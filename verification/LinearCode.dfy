/** Shift-register checksums over any group of exponent two: which changes to the words they see. */
module LinearCode {

  /** Registers with their sum, the shift applied for every word, the registers in use and the words among them. */
  datatype Code<!R> = Code(zero: R, plus: (R, R) -> R, shift: R -> R, fits: R -> bool, word: R -> bool)

  /** The register after `words`, started at `c`. */
  function Fold<R>(code: Code<R>, c: R, words: seq<R>): R {
    if words == [] then c
    else code.plus(code.shift(Fold(code, c, words[..|words| - 1])), words[|words| - 1])
  }

  /** Names the instance of the group laws a proof uses. */
  ghost predicate At<R>(a: R, b: R, c: R) { true }

  ghost predicate Group<R(!new)>(plus: (R, R) -> R, zero: R) {
    forall a, b, c {:trigger At(a, b, c)} ::
      && plus(a, b) == plus(b, a) && plus(plus(a, b), c) == plus(a, plus(b, c))
      && plus(a, zero) == a && plus(a, a) == zero
  }

  ghost predicate Linear<R(!new)>(plus: (R, R) -> R, f: R -> R) {
    forall a, b {:trigger f(plus(a, b))} :: f(plus(a, b)) == plus(f(a), f(b))
  }

  ghost predicate Sums<R(!new)>(plus: (R, R) -> R, h: R -> R, f: R -> R, g: R -> R) {
    forall a :: h(a) == plus(f(a), g(a))
  }

  ghost predicate Closed<R(!new)>(plus: (R, R) -> R, zero: R, p: R -> bool) {
    p(zero) && forall a, b {:trigger p(plus(a, b))} :: p(a) && p(b) ==> p(plus(a, b))
  }

  /** On the registers in use, the shift stays in use and only zero shifts to zero. */
  ghost predicate Faithful<R(!new)>(code: Code<R>) {
    forall c {:trigger code.shift(c)} :: code.fits(c) ==>
      code.fits(code.shift(c)) && (code.shift(c) == code.zero ==> c == code.zero)
  }

  ghost predicate Valid<R(!new)>(code: Code<R>) {
    && Group(code.plus, code.zero) && Linear(code.plus, code.shift) && Faithful(code)
    && Closed(code.plus, code.zero, code.fits) && Closed(code.plus, code.zero, code.word)
    && forall w :: code.word(w) ==> code.fits(w)
  }

  // ----- group facts -----

  lemma Swap<R(!new)>(plus: (R, R) -> R, zero: R, a: R, b: R, c: R, d: R)
    requires Group(plus, zero)
    ensures plus(plus(a, b), plus(c, d)) == plus(plus(a, c), plus(b, d))
  {
    assert At(a, b, plus(c, d)) && At(b, c, d) && At(c, b, d) && At(a, c, plus(b, d));
  }

  /** A sum is zero only when its terms are equal. */
  lemma ZeroSum<R(!new)>(plus: (R, R) -> R, zero: R, a: R, b: R)
    requires Group(plus, zero)
    ensures plus(a, b) == zero <==> a == b
  {
    assert At(a, b, b) && At(b, zero, b);
  }

  lemma SumLinear<R(!new)>(plus: (R, R) -> R, zero: R, h: R -> R, f: R -> R, g: R -> R)
    requires Group(plus, zero) && Linear(plus, f) && Linear(plus, g) && Sums(plus, h, f, g)
    ensures Linear(plus, h)
  {
    forall a, b ensures h(plus(a, b)) == plus(h(a), h(b)) { Swap(plus, zero, f(a), f(b), g(a), g(b)); }
  }

  ghost predicate Commutes<R(!new)>(f: R -> R, m: R -> R, p: R -> bool) {
    forall a {:trigger f(m(a))} :: p(a) ==> f(m(a)) == m(f(a))
  }

  lemma SumCommutes<R(!new)>(plus: (R, R) -> R, h: R -> R, f: R -> R, g: R -> R, m: R -> R, p: R -> bool)
    requires Linear(plus, m) && Sums(plus, h, f, g) && Commutes(f, m, p) && Commutes(g, m, p)
    ensures Commutes(h, m, p)
  {
  }

  lemma ShiftZero<R(!new)>(code: Code<R>)
    requires Valid(code)
    ensures code.shift(code.zero) == code.zero
  {
    var z := code.zero;
    assert At(z, z, z) && At(code.shift(z), z, z);
    assert code.shift(code.plus(z, z)) == code.plus(code.shift(z), code.shift(z)) == z;
  }

  // ----- folds -----

  lemma {:induction false} FoldAppend<R>(code: Code<R>, c: R, x: seq<R>, y: seq<R>)
    ensures Fold(code, c, x + y) == Fold(code, Fold(code, c, x), y)
  {
    if y == [] {
      assert x + y == x;
    } else {
      FoldAppend(code, c, x, y[..|y| - 1]);
      assert (x + y)[..|x + y| - 1] == x + y[..|y| - 1];
    }
  }

  /** The word-by-word sum of two sequences. */
  function Sum<R>(code: Code<R>, x: seq<R>, y: seq<R>): (s: seq<R>)
    requires |x| == |y|
    ensures |s| == |x| && forall i :: 0 <= i < |s| ==> s[i] == code.plus(x[i], y[i])
  {
    seq(|x|, i requires 0 <= i < |x| => code.plus(x[i], y[i]))
  }

  lemma {:induction false} FoldLinear<R(!new)>(code: Code<R>, a: R, b: R, x: seq<R>, y: seq<R>)
    requires Valid(code) && |x| == |y|
    ensures Fold(code, code.plus(a, b), Sum(code, x, y)) == code.plus(Fold(code, a, x), Fold(code, b, y))
  {
    if x != [] {
      var n := |x| - 1;
      assert Sum(code, x, y)[..n] == Sum(code, x[..n], y[..n]);
      FoldLinear(code, a, b, x[..n], y[..n]);
      var fa, fb := Fold(code, a, x[..n]), Fold(code, b, y[..n]);
      assert Fold(code, code.plus(a, b), Sum(code, x, y))
             == code.plus(code.shift(code.plus(fa, fb)), code.plus(x[n], y[n]));
      SumStep(code, fa, fb, x[n], y[n]);
    }
  }

  lemma SumStep<R(!new)>(code: Code<R>, a: R, b: R, v: R, w: R)
    requires Valid(code)
    ensures code.plus(code.shift(code.plus(a, b)), code.plus(v, w))
         == code.plus(code.plus(code.shift(a), v), code.plus(code.shift(b), w))
  {
    Swap(code.plus, code.zero, code.shift(a), code.shift(b), v, w);
  }

  /** Two word sequences of one length leave the same register exactly when their sum leaves zero. */
  lemma FoldsAgree<R(!new)>(code: Code<R>, c: R, x: seq<R>, y: seq<R>)
    requires Valid(code) && |x| == |y|
    ensures Fold(code, c, x) == Fold(code, c, y) <==> Fold(code, code.zero, Sum(code, x, y)) == code.zero
  {
    FoldLinear(code, c, c, x, y);
    ZeroSum(code.plus, code.zero, c, c);
    ZeroSum(code.plus, code.zero, Fold(code, c, x), Fold(code, c, y));
  }

  /** Words on top of zeros: the register is the sum of what the zeros and the words alone leave. */
  lemma FoldOffset<R(!new)>(code: Code<R>, c: R, zeros: seq<R>, words: seq<R>)
    requires Valid(code) && |zeros| == |words| && AllZero(code, zeros)
    ensures Fold(code, c, words) == code.plus(Fold(code, c, zeros), Fold(code, code.zero, words))
  {
    FoldLinear(code, c, code.zero, zeros, words);
    forall i | 0 <= i < |words| ensures code.plus(zeros[i], words[i]) == words[i] {
      assert At(zeros[i], words[i], words[i]) && At(words[i], words[i], words[i]);
    }
    assert Sum(code, zeros, words) == words;
    assert At(c, c, c);
  }

  ghost predicate AreWords<R>(code: Code<R>, words: seq<R>) { forall i :: 0 <= i < |words| ==> code.word(words[i]) }

  ghost predicate AllZero<R>(code: Code<R>, words: seq<R>) { forall i :: 0 <= i < |words| ==> words[i] == code.zero }

  lemma {:induction false} FoldFits<R(!new)>(code: Code<R>, c: R, words: seq<R>)
    requires Valid(code) && code.fits(c) && AreWords(code, words)
    ensures code.fits(Fold(code, c, words))
  {
    if words != [] {
      var n := |words| - 1;
      FoldFits(code, c, words[..n]);
      Fitting(code, Fold(code, c, words[..n]), words[n]);
    }
  }

  lemma Fitting<R(!new)>(code: Code<R>, c: R, w: R)
    requires Valid(code) && code.fits(c) && code.word(w)
    ensures code.fits(code.plus(code.shift(c), w))
  {
  }

  /** Zero words before a change do not touch the zero register; zero words after it cannot hide it. */
  lemma {:induction false} FoldZeros<R(!new)>(code: Code<R>, c: R, zeros: seq<R>)
    requires Valid(code) && code.fits(c) && AllZero(code, zeros)
    ensures Fold(code, c, zeros) == code.zero <==> c == code.zero
  {
    if zeros != [] {
      var n := |zeros| - 1;
      FoldZeros(code, c, zeros[..n]);
      assert AreWords(code, zeros[..n]);
      FoldFits(code, c, zeros[..n]);
      ZeroStep(code, Fold(code, c, zeros[..n]));
    }
  }

  lemma ZeroStep<R(!new)>(code: Code<R>, c: R)
    requires Valid(code) && code.fits(c)
    ensures code.plus(code.shift(c), code.zero) == code.zero <==> c == code.zero
  {
    ShiftZero(code);
    assert At(code.shift(c), c, c);
  }

  /** The registers a sequence passes through determine its fold. */
  lemma {:induction false} FoldPath<R>(code: Code<R>, words: seq<R>, path: seq<R>)
    requires |path| == |words| + 1
    requires forall i :: 0 <= i < |words| ==> path[i + 1] == code.plus(code.shift(path[i]), words[i])
    ensures Fold(code, path[0], words) == path[|words|]
  {
    if words != [] {
      var n := |words| - 1;
      assert path[n + 1] == code.plus(code.shift(path[n]), words[n]);
      FoldPath(code, words[..n], path[..n + 1]);
    }
  }

  lemma FoldSixWords<R>(code: Code<R>, w0: R, w1: R, w2: R, w3: R, w4: R, w5: R, r1: R, r2: R, r3: R, r4: R, r5: R,
                        r6: R)
    requires r1 == code.plus(code.shift(code.zero), w0) && r2 == code.plus(code.shift(r1), w1)
    requires r3 == code.plus(code.shift(r2), w2) && r4 == code.plus(code.shift(r3), w3)
    requires r5 == code.plus(code.shift(r4), w4) && r6 == code.plus(code.shift(r5), w5)
    ensures Fold(code, code.zero, [w0, w1, w2, w3, w4, w5]) == r6
  {
    FoldPath(code, [w0, w1, w2, w3, w4, w5], [code.zero, r1, r2, r3, r4, r5, r6]);
  }

  lemma IsSix<R>(s: seq<R>, w0: R, w1: R, w2: R, w3: R, w4: R, w5: R)
    requires |s| == 6 && s[0] == w0 && s[1] == w1 && s[2] == w2 && s[3] == w3 && s[4] == w4 && s[5] == w5
    ensures s == [w0, w1, w2, w3, w4, w5]
  {
  }

  // ----- bursts -----

  /** No `k` words, not all zero, bring the zero register back to zero. */
  ghost predicate SeesBursts<R(!new)>(code: Code<R>, k: nat) {
    forall words: seq<R> :: |words| <= k && AreWords(code, words) && Fold(code, code.zero, words) == code.zero ==>
      AllZero(code, words)
  }

  /** Registers of at most `n` words are told apart from zero by every word appended, for `n` below `k`. */
  ghost predicate Stacks<R(!new)>(code: Code<R>, short: (nat, R) -> bool, k: nat) {
    short(0, code.zero) &&
    forall n: nat, c, w {:trigger short(n, c), code.plus(code.shift(c), w)} :: n < k && short(n, c) && code.word(w) ==>
      var d := code.plus(code.shift(c), w);
      short(n + 1, d) && (d == code.zero ==> c == code.zero && w == code.zero)
  }

  lemma {:induction false} ShortFold<R(!new)>(code: Code<R>, short: (nat, R) -> bool, k: nat, words: seq<R>)
    requires Stacks(code, short, k) && |words| <= k && AreWords(code, words)
    ensures short(|words|, Fold(code, code.zero, words))
    ensures Fold(code, code.zero, words) == code.zero ==> AllZero(code, words)
  {
    if words != [] { ShortFold(code, short, k, words[..|words| - 1]); }
  }

  lemma StacksSeesBursts<R(!new)>(code: Code<R>, short: (nat, R) -> bool, k: nat)
    requires Stacks(code, short, k)
    ensures SeesBursts(code, k)
  {
    forall words: seq<R> | |words| <= k && AreWords(code, words) && Fold(code, code.zero, words) == code.zero
      ensures AllZero(code, words)
    {
      ShortFold(code, short, k, words);
    }
  }

  /** The sequences agree outside the positions from `i` up to `j`. */
  ghost predicate AgreeOutside<R(!new)>(x: seq<R>, y: seq<R>, i: nat, j: nat) {
    |x| == |y| && i <= j <= |x| && x[..i] == y[..i] && x[j..] == y[j..]
  }

  lemma SumZero<R(!new)>(code: Code<R>, x: seq<R>)
    requires Valid(code)
    ensures AllZero(code, Sum(code, x, x))
  {
    forall i | 0 <= i < |x| ensures Sum(code, x, x)[i] == code.zero { assert At(x[i], x[i], x[i]); }
  }

  lemma SumWords<R(!new)>(code: Code<R>, x: seq<R>, y: seq<R>)
    requires Valid(code) && |x| == |y| && AreWords(code, x) && AreWords(code, y)
    ensures AreWords(code, Sum(code, x, y))
  {
  }

  lemma SumAllZero<R(!new)>(code: Code<R>, x: seq<R>, y: seq<R>)
    requires Valid(code) && |x| == |y| && AllZero(code, Sum(code, x, y))
    ensures x == y
  {
    forall i | 0 <= i < |x| ensures x[i] == y[i] {
      assert Sum(code, x, y)[i] == code.zero;
      ZeroSum(code.plus, code.zero, x[i], y[i]);
    }
  }

  lemma SumOutside<R(!new)>(code: Code<R>, x: seq<R>, y: seq<R>, i: nat, j: nat)
    requires Valid(code) && AgreeOutside(x, y, i, j)
    ensures AllZero(code, Sum(code, x, y)[..i]) && AllZero(code, Sum(code, x, y)[j..])
    ensures Sum(code, x, y)[i..j] == Sum(code, x[i..j], y[i..j])
  {
    var s := Sum(code, x, y);
    assert s[..i] == Sum(code, x[..i], x[..i]);
    assert s[j..] == Sum(code, x[j..], x[j..]);
    SumZero(code, x[..i]);
    SumZero(code, x[j..]);
  }

  /** A burst of at most `k` words always changes the register. */
  lemma BurstDetected<R(!new)>(code: Code<R>, k: nat, c: R, x: seq<R>, y: seq<R>, i: nat, j: nat)
    requires Valid(code) && SeesBursts(code, k) && AreWords(code, x) && AreWords(code, y)
    requires AgreeOutside(x, y, i, j) && j - i <= k && Fold(code, c, x) == Fold(code, c, y)
    ensures x == y
  {
    FoldsAgree(code, c, x, y);
    BurstInSum(code, k, x, y, i, j);
    Joined(x, y, i, j);
  }

  lemma BurstInSum<R(!new)>(code: Code<R>, k: nat, x: seq<R>, y: seq<R>, i: nat, j: nat)
    requires Valid(code) && SeesBursts(code, k) && AreWords(code, x) && AreWords(code, y)
    requires AgreeOutside(x, y, i, j) && j - i <= k && Fold(code, code.zero, Sum(code, x, y)) == code.zero
    ensures x[i..j] == y[i..j]
  {
    var s := Sum(code, x, y);
    SumWords(code, x, y);
    SumOutside(code, x, y, i, j);
    WindowOf(code, s, i, j);
    SumAllZero(code, x[i..j], y[i..j]);
  }

  lemma WindowOf<R(!new)>(code: Code<R>, s: seq<R>, i: nat, j: nat)
    requires Valid(code) && AreWords(code, s) && i <= j <= |s| && AllZero(code, s[..i]) && AllZero(code, s[j..])
    requires Fold(code, code.zero, s) == code.zero
    ensures Fold(code, code.zero, s[i..j]) == code.zero && AreWords(code, s[i..j])
  {
    Three(s, i, j);
    WindowZero(code, s[..i], s[i..j], s[j..]);
  }

  lemma Three<R>(s: seq<R>, i: nat, j: nat)
    requires i <= j <= |s|
    ensures s == s[..i] + s[i..j] + s[j..]
  {
  }

  lemma Joined<R(!new)>(x: seq<R>, y: seq<R>, i: nat, j: nat)
    requires AgreeOutside(x, y, i, j) && x[i..j] == y[i..j]
    ensures x == y
  {
    Three(x, i, j);
    Three(y, i, j);
  }

  /** Only the window decides whether the register comes back to zero. */
  lemma WindowZero<R(!new)>(code: Code<R>, before: seq<R>, window: seq<R>, after: seq<R>)
    requires Valid(code) && AllZero(code, before) && AreWords(code, window) && AllZero(code, after)
    requires Fold(code, code.zero, before + window + after) == code.zero
    ensures Fold(code, code.zero, window) == code.zero
  {
    FoldAppend(code, code.zero, before + window, after);
    FoldAppend(code, code.zero, before, window);
    FoldZeros(code, code.zero, before);
    FoldFits(code, code.zero, window);
    FoldZeros(code, Fold(code, code.zero, window), after);
  }

  // ----- pairs -----

  function Shifted<R>(code: Code<R>, c: R, d: nat): R { if d == 0 then c else code.shift(Shifted(code, c, d - 1)) }

  /** No nonzero word shifts to a word within `far` shifts. */
  ghost predicate SeesPairs<R(!new)>(code: Code<R>, far: nat) {
    forall e, d: nat :: code.word(e) && e != code.zero && 1 <= d <= far ==> !code.word(Shifted(code, e, d))
  }

  /** The sequences agree except perhaps at `i` and `j`. */
  ghost predicate AgreeExcept<R(!new)>(x: seq<R>, y: seq<R>, i: nat, j: nat) {
    |x| == |y| && forall k :: 0 <= k < |x| && k != i && k != j ==> x[k] == y[k]
  }

  lemma {:induction false} FoldIsShifted<R(!new)>(code: Code<R>, c: R, zeros: seq<R>)
    requires Valid(code) && AllZero(code, zeros)
    ensures Fold(code, c, zeros) == Shifted(code, c, |zeros|)
  {
    if zeros != [] {
      FoldIsShifted(code, c, zeros[..|zeros| - 1]);
      assert At(Shifted(code, c, |zeros|), c, c);
    }
  }

  lemma FoldPair<R(!new)>(code: Code<R>, a: R, zeros: seq<R>, b: R)
    requires Valid(code) && AllZero(code, zeros)
    ensures Fold(code, code.zero, [a] + zeros + [b]) == code.plus(Shifted(code, a, |zeros| + 1), b)
  {
    assert ([a] + zeros + [b])[..|zeros| + 1] == [a] + zeros;
    FoldAppend(code, code.zero, [a], zeros);
    FirstWord(code, a);
    assert [a][..0] == [];
    FoldIsShifted(code, a, zeros);
  }

  lemma PairApart<R(!new)>(code: Code<R>, far: nat, a: R, b: R, d: nat)
    requires Valid(code) && SeesPairs(code, far) && code.word(a) && code.word(b) && 1 <= d <= far
    requires code.plus(Shifted(code, a, d), b) == code.zero
    ensures a == code.zero && b == code.zero
  {
    ZeroSum(code.plus, code.zero, Shifted(code, a, d), b);
    ShiftedZero(code, d);
  }

  /** Two words at distance at most `far` cannot bring the register back to zero. */
  lemma PairZero<R(!new)>(code: Code<R>, far: nat, before: seq<R>, a: R, zeros: seq<R>, b: R, after: seq<R>)
    requires Valid(code) && SeesPairs(code, far) && code.word(a) && code.word(b) && |zeros| < far
    requires AllZero(code, before) && AllZero(code, zeros) && AllZero(code, after)
    requires Fold(code, code.zero, before + ([a] + zeros + [b]) + after) == code.zero
    ensures a == code.zero && b == code.zero
  {
    WindowZero(code, before, [a] + zeros + [b], after);
    FoldPair(code, a, zeros, b);
    PairApart(code, far, a, b, |zeros| + 1);
  }

  lemma FirstWord<R(!new)>(code: Code<R>, w: R)
    requires Valid(code)
    ensures code.plus(code.shift(code.zero), w) == w
  {
    ShiftZero(code);
    assert At(code.zero, w, w) && At(w, w, w);
  }

  lemma {:induction false} ShiftedZero<R(!new)>(code: Code<R>, d: nat)
    requires Valid(code)
    ensures Shifted(code, code.zero, d) == code.zero
  {
    if d > 0 {
      ShiftedZero(code, d - 1);
      ShiftZero(code);
    }
  }

  lemma SumOnlyAt<R(!new)>(code: Code<R>, x: seq<R>, y: seq<R>, i: nat, j: nat)
    requires Valid(code) && AgreeExcept(x, y, i, j) && i < j < |x|
    ensures var s := Sum(code, x, y); AllZero(code, s[..i]) && AllZero(code, s[i + 1..j]) && AllZero(code, s[j + 1..])
  {
    var s := Sum(code, x, y);
    forall k | 0 <= k < |s| && k != i && k != j ensures s[k] == code.zero { assert At(x[k], x[k], x[k]); }
  }

  lemma Five<R>(s: seq<R>, i: nat, j: nat)
    requires i < j < |s|
    ensures s == s[..i] + ([s[i]] + s[i + 1..j] + [s[j]]) + s[j + 1..]
  {
  }

  /** Changing one or two words at distance at most `far` always changes the register. */
  lemma PairDetected<R(!new)>(code: Code<R>, far: nat, c: R, x: seq<R>, y: seq<R>, i: nat, j: nat)
    requires Valid(code) && SeesPairs(code, far) && AreWords(code, x) && AreWords(code, y)
    requires AgreeExcept(x, y, i, j) && i < j < |x| && j - i <= far && Fold(code, c, x) == Fold(code, c, y)
    ensures x == y
  {
    FoldsAgree(code, c, x, y);
    PairInSum(code, far, x, y, i, j);
    ZeroSum(code.plus, code.zero, x[i], y[i]);
    ZeroSum(code.plus, code.zero, x[j], y[j]);
  }

  lemma PairInSum<R(!new)>(code: Code<R>, far: nat, x: seq<R>, y: seq<R>, i: nat, j: nat)
    requires Valid(code) && SeesPairs(code, far) && AreWords(code, x) && AreWords(code, y)
    requires AgreeExcept(x, y, i, j) && i < j < |x| && j - i <= far &&
             Fold(code, code.zero, Sum(code, x, y)) == code.zero
    ensures Sum(code, x, y)[i] == code.zero && Sum(code, x, y)[j] == code.zero
  {
    var s := Sum(code, x, y);
    SumWords(code, x, y);
    SumOnlyAt(code, x, y, i, j);
    Five(s, i, j);
    PairZero(code, far, s[..i], s[i], s[i + 1..j], s[j], s[j + 1..]);
  }

  /** Eleven shifts lead from `x` to `y`, none of them through a word. */
  ghost predicate Leap<R>(code: Code<R>, x: R, y: R) {
    var x1 := code.shift(x);
    var x2 := code.shift(x1);
    var x3 := code.shift(x2);
    var x4 := code.shift(x3);
    var x5 := code.shift(x4);
    var x6 := code.shift(x5);
    var x7 := code.shift(x6);
    var x8 := code.shift(x7);
    var x9 := code.shift(x8);
    var x10 := code.shift(x9);
    && !code.word(x1) && !code.word(x2) && !code.word(x3) && !code.word(x4) && !code.word(x5) && !code.word(x6)
    && !code.word(x7) && !code.word(x8) && !code.word(x9) && !code.word(x10) && !code.word(y)
    && y == code.shift(x10)
  }

  /** The first `d` shifts of `e` pass through no word and reach `x`. */
  ghost predicate Clear<R>(code: Code<R>, e: R, d: nat, x: R) {
    Shifted(code, e, d) == x && forall k: nat :: 1 <= k <= d ==> !code.word(Shifted(code, e, k))
  }

  lemma LeapClear<R>(code: Code<R>, e: R, d: nat, x: R, y: R)
    requires Clear(code, e, d, x) && Leap(code, x, y)
    ensures Clear(code, e, d + 11, y)
  {
    var x1 := Shifted(code, e, d + 1);
    var x2 := Shifted(code, e, d + 2);
    var x3 := Shifted(code, e, d + 3);
    var x4 := Shifted(code, e, d + 4);
    var x5 := Shifted(code, e, d + 5);
    var x6 := Shifted(code, e, d + 6);
    var x7 := Shifted(code, e, d + 7);
    var x8 := Shifted(code, e, d + 8);
    var x9 := Shifted(code, e, d + 9);
    var x10 := Shifted(code, e, d + 10);
  }

  // ----- scalars -----

  /** `m` commutes with the shift and keeps words and other registers apart. */
  ghost predicate Scalar<R(!new)>(code: Code<R>, m: R -> R) {
    && Commutes(code.shift, m, code.fits)
    && forall c {:trigger m(c)} :: code.fits(c) ==> code.fits(m(c)) && (code.word(m(c)) <==> code.word(c))
  }

  lemma {:induction false} ShiftedFits<R(!new)>(code: Code<R>, e: R, d: nat)
    requires Faithful(code) && code.fits(e)
    ensures code.fits(Shifted(code, e, d))
  {
    if d > 0 { ShiftedFits(code, e, d - 1); }
  }

  lemma {:induction false} ShiftedScales<R(!new)>(code: Code<R>, m: R -> R, e: R, d: nat)
    requires Faithful(code) && Scalar(code, m) && code.fits(e)
    ensures Shifted(code, m(e), d) == m(Shifted(code, e, d))
  {
    if d > 0 {
      ShiftedScales(code, m, e, d - 1);
      ShiftedFits(code, e, d - 1);
    }
  }

  ghost predicate NeverWord<R(!new)>(code: Code<R>, e: R, far: nat) {
    forall d: nat :: 1 <= d <= far ==> !code.word(Shifted(code, e, d))
  }

  /** A multiple of a word that never comes back to a word never comes back either. */
  lemma ScaledNeverWord<R(!new)>(code: Code<R>, m: R -> R, e: R, far: nat)
    requires Faithful(code) && Scalar(code, m) && code.fits(e) && NeverWord(code, e, far)
    ensures NeverWord(code, m(e), far) && code.fits(m(e))
  {
    forall d: nat | 1 <= d <= far ensures !code.word(Shifted(code, m(e), d)) {
      ShiftedScales(code, m, e, d);
      ShiftedFits(code, e, d);
    }
  }
}
