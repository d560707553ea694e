/** The vector arithmetic of src/include/fly_math.h: `Param_t` (a weight
    buffer and a bias), `sgn` and the dense and sparse dot products. */
module FlyMath {
  import opened Wrappers
  import opened Instances
  import opened Compact

  // ---------------------------------------------------------------------
  // Specification functions on weight sequences.

  /** Every weight times `x`. */
  function ScaledBy(ws: seq<real>, x: real): (r: seq<real>)
    ensures |r| == |ws| && forall i :: 0 <= i < |ws| ==> r[i] == ws[i] * x
  {
    seq(|ws|, i requires 0 <= i < |ws| => ws[i] * x)
  }

  /** Every weight plus `x`. */
  function ShiftedBy(ws: seq<real>, x: real): (r: seq<real>)
    ensures |r| == |ws| && forall i :: 0 <= i < |ws| ==> r[i] == ws[i] + x
  {
    seq(|ws|, i requires 0 <= i < |ws| => ws[i] + x)
  }

  /** The weights plus the first `|ws|` weights of `os`. */
  function PlusFirst(ws: seq<real>, os: seq<real>): (r: seq<real>)
    requires |os| >= |ws|
    ensures |r| == |ws| && forall i :: 0 <= i < |ws| ==> r[i] == ws[i] + os[i]
  {
    seq(|ws|, i requires 0 <= i < |ws| => ws[i] + os[i])
  }

  /** `xs[0]*ys[0] + ... + xs[n-1]*ys[n-1]`. */
  function DotSum(xs: seq<real>, ys: seq<real>, n: nat): real
    requires n <= |xs| && n <= |ys|
  {
    if n == 0 then 0.0 else DotSum(xs, ys, n - 1) + xs[n - 1] * ys[n - 1]
  }

  function Min(a: nat, b: nat): nat {
    if a <= b then a else b
  }

  /** `Param_t * Param_t`: the biases multiplied plus the weights
      multiplied over the shorter length. */
  function ParamDot(b1: real, w1: seq<real>, b2: real, w2: seq<real>): real {
    b1 * b2 + DotSum(w1, w2, Min(|w1|, |w2|))
  }

  lemma {:induction false} DotSumSymmetric(xs: seq<real>, ys: seq<real>, n: nat)
    requires n <= |xs| && n <= |ys|
    ensures DotSum(xs, ys, n) == DotSum(ys, xs, n)
  {
    if n > 0 {
      DotSumSymmetric(xs, ys, n - 1);
    }
  }

  /** The dot product of two parameters does not depend on their order. */
  lemma ParamDotSymmetric(b1: real, w1: seq<real>, b2: real, w2: seq<real>)
    ensures ParamDot(b1, w1, b2, w2) == ParamDot(b2, w2, b1, w1)
  {
    DotSumSymmetric(w1, w2, Min(|w1|, |w2|));
  }

  lemma {:induction false} DotSumScaled(xs: seq<real>, x: real, ys: seq<real>, n: nat)
    requires n <= |xs| && n <= |ys|
    ensures DotSum(ScaledBy(xs, x), ys, n) == x * DotSum(xs, ys, n)
  {
    if n > 0 {
      DotSumScaled(xs, x, ys, n - 1);
      var a, c := xs[n - 1], ys[n - 1];
      assert ScaledBy(xs, x)[n - 1] * c == x * (a * c);
    }
  }

  /** Scaling a parameter by `x` (`operator *`) scales its dot product
      with any other parameter by `x`. */
  lemma ScaledDot(b1: real, w1: seq<real>, x: real, b2: real, w2: seq<real>)
    ensures ParamDot(b1 * x, ScaledBy(w1, x), b2, w2) == x * ParamDot(b1, w1, b2, w2)
  {
    DotSumScaled(w1, x, w2, Min(|w1|, |w2|));
  }

  lemma {:induction false} DotSumPlus(xs: seq<real>, zs: seq<real>, ys: seq<real>, n: nat)
    requires |zs| >= |xs| && n <= |xs| && n <= |ys|
    ensures DotSum(PlusFirst(xs, zs), ys, n) == DotSum(xs, ys, n) + DotSum(zs, ys, n)
  {
    if n > 0 {
      DotSumPlus(xs, zs, ys, n - 1);
    }
  }

  /** Adding a parameter (`operator +=`) adds its dot products: the dot
      product distributes over the sum. */
  lemma PlusDot(b1: real, w1: seq<real>, b3: real, w3: seq<real>, b2: real, w2: seq<real>)
    requires |w3| >= |w1|
    ensures ParamDot(b1 + b3, PlusFirst(w1, w3), b2, w2) ==
            ParamDot(b1, w1, b2, w2) + (b3 * b2 + DotSum(w3, w2, Min(|w1|, |w2|)))
  {
    DotSumPlus(w1, w3, w2, Min(|w1|, |w2|));
  }

  /** Adding `x` and then `-x` to every weight gives the weights back. */
  lemma ShiftBack(ws: seq<real>, x: real)
    ensures ShiftedBy(ShiftedBy(ws, x), -x) == ws
  {
  }

  // ---------------------------------------------------------------------
  // `Param_t`.

  /** `Param_t`: the weight buffer `w` (`null` for NULL), the bias `b` and
      the size `sz`. */
  class Param {
    var w: array?<real>
    var b: real
    var sz: nat

    /** A buffer holds `sz` weights; without one the size is 0. */
    ghost predicate Valid()
      reads this
    {
      (w == null ==> sz == 0) && (w != null ==> w.Length == sz)
    }

    /** The weights, none without a buffer. */
    function Weights(): (ws: seq<real>)
      requires Valid()
      reads this, w
      ensures |ws| == sz
    {
      if w == null then [] else w[..]
    }

    /** `Param_t()`: no buffer, size 0, the bias left unset
        (src/include/fly_math.h:25-26). */
    constructor Empty()
      ensures Valid() && w == null && sz == 0
    {
      w := null;
      sz := 0;
    }

    /** `Param_t(t, c, n)`: a fresh copy of the first `n` values of `t`
        and the bias `c` (src/include/fly_math.h:27-32). */
    constructor From(t: array<real>, c: real, n: nat)
      requires n <= t.Length
      ensures Valid() && fresh(w) && Weights() == t[..n] && b == c && sz == n
    {
      sz := n;
      var buf := new real[n];
      for i := 0 to n
        invariant buf[..i] == t[..i]
      {
        buf[i] := t[i];
      }
      w := buf;
      b := c;
    }

    /** The copy constructor: a fresh copy of the weights and the bias
        (src/include/fly_math.h:33-38). */
    constructor Copy(o: Param)
      requires o.Valid()
      ensures Valid() && fresh(w) && Weights() == o.Weights() && b == o.b && sz == o.sz
    {
      sz := o.sz;
      var buf := new real[o.sz];
      for i := 0 to o.sz
        invariant buf[..i] == o.Weights()[..i]
      {
        buf[i] := o.w[i];
      }
      w := buf;
      b := o.b;
    }

    /** `set(n)`: `n` zero weights in a fresh buffer and a zero bias
        (src/include/fly_math.h:45-51). */
    method Set(n: nat)
      requires Valid()
      modifies this
      ensures Valid() && fresh(w) && Weights() == Zeros(n) && b == 0.0 && sz == n
    {
      Clear();
      var buf := new real[n];
      for i := 0 to n
        invariant forall k :: 0 <= k < i ==> buf[k] == 0.0
      {
        buf[i] := 0.0;
      }
      w := buf;
      b := 0.0;
      sz := n;
    }

    /** `clear()`: a buffer is dropped and the size zeroed; without a
        buffer nothing changes (src/include/fly_math.h:53-59). */
    method Clear()
      requires Valid()
      modifies this
      ensures Valid() && w == null && b == old(b)
      ensures old(w) == null ==> sz == old(sz)
    {
      if w != null {
        sz := 0;
        w := null;
      }
    }

    /** `operator = (Param_t)`: the bias and the size of `o`, then a fresh
        buffer (whose uninitialised contents are `uninit`) into which the
        weights of `o` are copied.  The buffer is allocated before `o.w` is
        read, so a self-assignment copies the fresh buffer onto itself and
        keeps its uninitialised contents; the old buffer is never released
        (src/include/fly_math.h:61-67). */
    method Assign(o: Param, uninit: seq<real>)
      requires o.Valid() && |uninit| == o.sz
      modifies this
      ensures Valid() && fresh(w) && b == old(o.b) && sz == old(o.sz)
      ensures o != this ==> Weights() == old(o.Weights())
      ensures o == this ==> Weights() == uninit
    {
      ghost var ws := o.Weights();
      var n := o.sz;
      b := o.b;
      sz := n;
      var buf := new real[n](i requires 0 <= i < n => uninit[i]);
      w := buf;
      var src := o.w;
      if src != null {
        for i := 0 to n
          invariant w == buf && sz == n && b == old(o.b)
          invariant src == (if o == this then buf else old(o.w))
          invariant o != this ==> src[..] == ws
          invariant buf[..i] == (if o == this then uninit[..i] else ws[..i])
          invariant buf[i..] == uninit[i..]
        {
          buf[i] := src[i];
        }
      }
      assert buf[..] == buf[..n];
    }

    /** `operator *= (x)`: the bias and every weight times `x`
        (src/include/fly_math.h:69-75). */
    method MulAssign(x: real)
      requires Valid()
      modifies this, w
      ensures Valid() && w == old(w) && sz == old(sz)
      ensures Weights() == ScaledBy(old(Weights()), x) && b == old(b) * x
    {
      if w != null {
        var a := w;
        ghost var ws := a[..];
        for i := 0 to a.Length
          modifies a
          invariant forall k :: 0 <= k < i ==> a[k] == ws[k] * x
          invariant forall k :: i <= k < a.Length ==> a[k] == ws[k]
        {
          a[i] := a[i] * x;
        }
        assert forall k :: 0 <= k < a.Length ==> a[..][k] == ScaledBy(ws, x)[k];
      }
      b := b * x;
    }

    /** `operator * (x)`: a scaled copy; this parameter is unchanged
        (src/include/fly_math.h:76-80). */
    method Times(x: real) returns (r: Param)
      requires Valid()
      ensures fresh(r) && r.Valid() && fresh(r.w)
      ensures r.Weights() == ScaledBy(Weights(), x) && r.b == b * x
    {
      r := new Param.Copy(this);
      r.MulAssign(x);
    }

    /** `operator * (Param_t)`: the dot product of the biases and of the
        weights over the shorter length (src/include/fly_math.h:81-87). */
    method Dot(o: Param) returns (r: real)
      requires Valid() && o.Valid()
      ensures r == ParamDot(b, Weights(), o.b, o.Weights())
    {
      r := b * o.b;
      var n := Min(sz, o.sz);
      for i := 0 to n
        invariant r == b * o.b + DotSum(Weights(), o.Weights(), i)
      {
        r := r + w[i] * o.w[i];
      }
    }

    /** `operator += (x)`: the bias and every weight plus `x`
        (src/include/fly_math.h:88-94). */
    method AddAssign(x: real)
      requires Valid()
      modifies this, w
      ensures Valid() && w == old(w) && sz == old(sz)
      ensures Weights() == ShiftedBy(old(Weights()), x) && b == old(b) + x
    {
      if w != null {
        var a := w;
        ghost var ws := a[..];
        for i := 0 to a.Length
          modifies a
          invariant forall k :: 0 <= k < i ==> a[k] == ws[k] + x
          invariant forall k :: i <= k < a.Length ==> a[k] == ws[k]
        {
          a[i] := a[i] + x;
        }
        assert a[..] == ShiftedBy(ws, x);
      }
      b := b + x;
    }

    /** `operator + (x)`: a shifted copy (src/include/fly_math.h:95-99). */
    method Plus(x: real) returns (r: Param)
      requires Valid()
      ensures fresh(r) && r.Valid() && fresh(r.w)
      ensures r.Weights() == ShiftedBy(Weights(), x) && r.b == b + x
    {
      r := new Param.Copy(this);
      r.AddAssign(x);
    }

    /** `operator += (Param_t)`: the biases added and, for each of this
        parameter's weights, the weight of `o` at the same position; `o`
        must be at least as long (src/include/fly_math.h:100-106).  `o` may
        be this parameter itself. */
    method AddParamAssign(o: Param)
      requires Valid() && o.Valid() && o.sz >= sz
      modifies this, w
      ensures Valid() && w == old(w) && sz == old(sz)
      ensures Weights() == PlusFirst(old(Weights()), old(o.Weights())) && b == old(b) + old(o.b)
    {
      ghost var os := o.Weights();
      var ob := o.b;
      if w != null {
        var a := w;
        ghost var ws := a[..];
        for i := 0 to a.Length
          modifies a
          invariant forall k :: 0 <= k < i ==> a[k] == ws[k] + os[k]
          invariant forall k :: i <= k < a.Length ==> a[k] == ws[k]
          invariant forall k :: i <= k < o.sz ==> o.w[k] == os[k]
        {
          a[i] := a[i] + o.w[i];
        }
        assert a[..] == PlusFirst(ws, os);
      }
      b := b + ob;
    }

    /** `operator + (Param_t)`: a summed copy (src/include/fly_math.h:107-111). */
    method PlusParam(o: Param) returns (r: Param)
      requires Valid() && o.Valid() && o.sz >= sz
      ensures fresh(r) && r.Valid() && fresh(r.w)
      ensures r.Weights() == PlusFirst(Weights(), o.Weights()) && r.b == b + o.b
    {
      r := new Param.Copy(this);
      r.AddParamAssign(o);
    }

    /** `operator = (x)`: the bias and every weight set to `x`
        (src/include/fly_math.h:112-118). */
    method Fill(x: real)
      requires Valid()
      modifies this, w
      ensures Valid() && w == old(w) && sz == old(sz) && b == x
      ensures forall i :: 0 <= i < sz ==> Weights()[i] == x
    {
      if w != null {
        var a := w;
        for i := 0 to a.Length
          modifies a
          invariant forall k :: 0 <= k < i ==> a[k] == x
        {
          a[i] := x;
        }
      }
      b := x;
    }
  }

  // ---------------------------------------------------------------------
  // `sgn` and the dot products.

  /** `sgn(x)`: 1 for `x >= 0`, -1 otherwise (src/include/fly_math.h:130-133). */
  function Sgn(x: real): (r: real)
    ensures r == 1.0 || r == -1.0
    ensures r == 1.0 <==> x >= 0.0
  {
    if x >= 0.0 then 1.0 else -1.0
  }

  /** The sign times the value is its magnitude. */
  lemma SgnTimesValue(x: real)
    ensures Sgn(x) * x >= 0.0
    ensures Sgn(x) * x == if x >= 0.0 then x else -x
  {
  }

  /** `vec_dot(num, theta, input)`: the sum of `input[i]*theta[i]` for
      `i < num` (src/include/fly_math.h:146-152). */
  method VecDot(num: nat, theta: array<real>, input: array<real>) returns (r: real)
    requires num <= theta.Length && num <= input.Length
    ensures r == DotSum(input[..], theta[..], num)
  {
    r := 0.0;
    for i := 0 to num
      invariant r == DotSum(input[..], theta[..], i)
    {
      r := r + input[i] * theta[i];
    }
  }

  /** `theta[idx] * value` summed over the pairs whose index lies in
      `[0, n)`. */
  function SparseSum(theta: seq<real>, n: int, ps: seq<IndValue>): real
    requires n <= |theta|
  {
    if ps == [] then 0.0
    else
      var p := ps[|ps| - 1];
      SparseSum(theta, n, ps[..|ps| - 1]) + if 0 <= p.index < n then theta[p.index] * p.value else 0.0
  }

  /** `sparse_dot` with the guard as written, `index < theta_num`: a
      negative index passes it and reads before `theta`, which C leaves
      undefined (`None`) (src/include/fly_math.h:154-162). */
  function SparseDotAsWritten(theta: seq<real>, n: int, ps: seq<IndValue>): Option<real>
    requires n <= |theta|
  {
    if ps == [] then Some(0.0)
    else
      var p := ps[|ps| - 1];
      match SparseDotAsWritten(theta, n, ps[..|ps| - 1])
      case None => None
      case Some(s) =>
        if p.index < n then
          (if p.index < 0 then None else Some(s + theta[p.index] * p.value))
        else Some(s)
  }

  /** As written, the pair `-1:2` against a one-weight `theta` passes the
      guard and reads outside `theta`; with the lower bound checked it adds
      nothing. */
  lemma NegativeIndexPassesGuard()
    ensures SparseDotAsWritten([1.0], 1, [IndValue(-1, 2.0)]).None?
    ensures SparseSum([1.0], 1, [IndValue(-1, 2.0)]) == 0.0
  {
    assert [IndValue(-1, 2.0)][..0] == [];
  }

  /** Without negative indices the guard as written and the checked guard
      agree. */
  lemma {:induction false} AsWrittenAgrees(theta: seq<real>, n: int, ps: seq<IndValue>)
    requires n <= |theta|
    requires forall k :: 0 <= k < |ps| ==> ps[k].index >= 0
    ensures SparseDotAsWritten(theta, n, ps) == Some(SparseSum(theta, n, ps))
  {
    if ps != [] {
      AsWrittenAgrees(theta, n, ps[..|ps| - 1]);
    }
  }

  /** `sparse_dot(theta_num, theta, input)` with the lower bound checked:
      the sum over the pairs whose index lies in `[0, theta_num)`. */
  method SparseDot(thetaNum: int, theta: array<real>, input: seq<IndValue>) returns (r: real)
    requires thetaNum <= theta.Length
    ensures r == SparseSum(theta[..], thetaNum, input)
  {
    r := 0.0;
    for i := 0 to |input|
      invariant r == SparseSum(theta[..], thetaNum, input[..i])
    {
      assert input[..i + 1][..i] == input[..i];
      if 0 <= input[i].index < thetaNum {
        r := r + theta[input[i].index] * input[i].value;
      }
    }
    assert input[..|input|] == input;
  }

  /** `sparse_dot(p, input)`: the bias plus the sparse sum over the
      weights, the lower bound checked (src/include/fly_math.h:172-180). */
  method SparseDotParam(p: Param, input: seq<IndValue>) returns (r: real)
    requires p.Valid()
    ensures r == p.b + SparseSum(p.Weights(), p.sz, input)
  {
    r := p.b;
    var ws := p.Weights();
    for i := 0 to |input|
      invariant r == p.b + SparseSum(ws, p.sz, input[..i])
    {
      assert input[..i + 1][..i] == input[..i];
      if 0 <= input[i].index < p.sz {
        r := r + p.w[input[i].index] * input[i].value;
      }
    }
    assert input[..|input|] == input;
  }

  lemma {:induction false} SparseSumAppend(theta: seq<real>, n: int, xs: seq<IndValue>, ys: seq<IndValue>)
    requires n <= |theta|
    ensures SparseSum(theta, n, xs + ys) == SparseSum(theta, n, xs) + SparseSum(theta, n, ys)
    decreases |ys|
  {
    if ys == [] {
      assert xs + ys == xs;
    } else {
      assert (xs + ys)[..|xs + ys| - 1] == xs + ys[..|ys| - 1];
      SparseSumAppend(theta, n, xs, ys[..|ys| - 1]);
    }
  }

  /** The sparse dot product of a dense record (value `i` at index `i`)
      is the dense `vec_dot` of its values. */
  lemma {:induction false} SparseOfDense(theta: seq<real>, n: int, vs: seq<real>)
    requires |vs| <= n <= |theta|
    ensures SparseSum(theta, n, DensePairs(vs)) == DotSum(vs, theta, |vs|)
    decreases |vs|
  {
    if vs != [] {
      var m := |vs| - 1;
      assert DensePairs(vs) == DensePairs(vs[..m]) + [IndValue(m, vs[m])];
      SparseSumAppend(theta, n, DensePairs(vs[..m]), [IndValue(m, vs[m])]);
      assert [IndValue(m, vs[m])][..0] == [];
      SparseOfDense(theta, n, vs[..m]);
      assert DotSum(vs[..m], theta, m) == DotSum(vs, theta, m) by {
        DotSumPrefix(vs, theta, m, m);
      }
    }
  }

  /** The first `k` products only look at the first `k` values. */
  lemma {:induction false} DotSumPrefix(xs: seq<real>, ys: seq<real>, n: nat, k: nat)
    requires k <= n <= |xs| && n <= |ys|
    ensures DotSum(xs[..n], ys, k) == DotSum(xs, ys, k)
  {
    if k > 0 {
      DotSumPrefix(xs, ys, n, k - 1);
    }
  }
}
