/** Row-major tensors placed in an arena. */
module Tensor {
  import opened Bits
  import opened Grid
  import opened Arena

  const MAX_DIMS := 4
  const ALIGN := 64

  datatype DType = F32 | I32 | U8 | I64

  function Size(dt: DType): (r: nat)
    ensures (r == 4 <==> dt.F32? || dt.I32?) && (r == 1 <==> dt.U8?) && (r == 8 <==> dt.I64?)
  {
    match dt
    case F32 => 4
    case I32 => 4
    case U8 => 1
    case I64 => 8
  }

  // ---- Indices and their flat positions -------------------------------------------------------

  /** The number of elements. */
  function Count(shape: seq<nat>): nat { if shape == [] then 1 else Count(shape[1..]) * shape[0] }

  predicate InRange(shape: seq<nat>, idx: seq<nat>) {
    |idx| == |shape| && forall i :: 0 <= i < |idx| ==> idx[i] < shape[i]
  }

  /** The position of an index in row-major order. */
  function Flat(shape: seq<nat>, idx: seq<nat>): nat
    requires |idx| == |shape|
  {
    if shape == [] then 0 else At(Count(shape[1..]), Flat(shape[1..], idx[1..]), idx[0])
  }

  lemma {:induction false} FlatBound(shape: seq<nat>, idx: seq<nat>)
    requires InRange(shape, idx)
    ensures Flat(shape, idx) < Count(shape)
  {
    if shape != [] {
      FlatBound(shape[1..], idx[1..]);
      hide At;
      InGrid(Count(shape[1..]), shape[0], Flat(shape[1..], idx[1..]), idx[0]);
    }
  }

  /** Different indices have different positions. */
  lemma {:induction false} FlatInjective(shape: seq<nat>, a: seq<nat>, b: seq<nat>)
    requires InRange(shape, a) && InRange(shape, b) && Flat(shape, a) == Flat(shape, b)
    ensures a == b
  {
    if shape != [] {
      var c, s := Count(shape[1..]), shape[1..];
      FlatBound(s, a[1..]);
      FlatBound(s, b[1..]);
      hide At, Count;
      Unique(c, Flat(s, a[1..]), a[0], Flat(s, b[1..]), b[0]);
      FlatInjective(s, a[1..], b[1..]);
      assert a == [a[0]] + a[1..] && b == [b[0]] + b[1..];
    }
  }

  /** Row-major: indices are ordered by their first difference. */
  lemma {:induction false} FlatInOrder(shape: seq<nat>, a: seq<nat>, b: seq<nat>, k: nat)
    requires InRange(shape, a) && InRange(shape, b) && k < |a| && a[..k] == b[..k] && a[k] < b[k]
    ensures Flat(shape, a) < Flat(shape, b)
    decreases k
  {
    hide At, Count;
    var s := shape[1..];
    FlatBound(s, a[1..]);
    if k == 0 {
      RowApart(Count(s), Flat(s, a[1..]), a[0], Flat(s, b[1..]), b[0]);
    } else {
      assert a[0] == a[..k][0] && b[0] == b[..k][0] && a[1..][..k - 1] == a[..k][1..] && b[1..][..k - 1] == b[..k][1..];
      FlatInOrder(s, a[1..], b[1..], k - 1);
      AlongRow(Count(s), a[0]);
    }
  }

  /** Every position is that of some index. */
  lemma {:induction false} FlatOnto(shape: seq<nat>, n: nat) returns (idx: seq<nat>)
    requires n < Count(shape)
    ensures InRange(shape, idx) && Flat(shape, idx) == n
  {
    if shape == [] {
      idx := [];
    } else {
      var c := Count(shape[1..]);
      hide At;
      var r, q := CellOf(c, shape[0], n);
      var rest := FlatOnto(shape[1..], r);
      idx := [q] + rest;
      assert idx[1..] == rest;
    }
  }

  // ---- Strides ------------------------------------------------------------------------------------

  /** Each stride is the size of everything to the right of its dimension. */
  predicate RowMajor(shape: seq<nat>, stride: seq<nat>, size: nat) {
    |stride| == |shape| && forall i :: 0 <= i < |shape| ==> stride[i] == size * Count(shape[i + 1..])
  }

  function Dot(idx: seq<nat>, stride: seq<nat>): nat
    requires |idx| == |stride|
  {
    if idx == [] then 0 else idx[0] * stride[0] + Dot(idx[1..], stride[1..])
  }

  lemma {:induction false} DotIsFlat(shape: seq<nat>, stride: seq<nat>, size: nat, idx: seq<nat>)
    requires |idx| == |shape| && RowMajor(shape, stride, size)
    ensures Dot(idx, stride) == size * Flat(shape, idx)
  {
    if shape != [] {
      var c, s, r := Count(shape[1..]), shape[1..], stride[1..];
      forall i | 0 <= i < |s|
        ensures r[i] == size * Count(s[i + 1..])
      {
        assert r[i] == stride[i + 1] && s[i + 1..] == shape[i + 2..];
      }
      assert stride[0] == size * c;
      DotIsFlat(s, r, size, idx[1..]);
      hide Count, RowMajor;
      Distribute(idx[0], size, c, Flat(s, idx[1..]));
    }
  }

  lemma Distribute(i: nat, size: nat, c: nat, n: nat)
    ensures i * (size * c) + size * n == size * At(c, n, i)
  {
    assert i * (size * c) == size * (i * c);
  }

  // ---- Element slots -------------------------------------------------------------------------------

  /** A tensor as its users see it. */
  datatype View = View(data: nat, shape: seq<nat>, dtype: DType)

  function Bytes(shape: seq<nat>, dt: DType): nat { Count(shape) * Size(dt) }

  /** The bytes of one element. */
  function Slot(v: View, idx: seq<nat>): Block
    requires |idx| == |v.shape|
  {
    Block(v.data + Size(v.dtype) * Flat(v.shape, idx), Size(v.dtype), 1)
  }

  predicate Inside(b: Block, at: nat, size: nat) { at <= b.at && b.at + b.size <= at + size }

  /** A slot lies inside the tensor's bytes, and the slots of different indices share no byte. */
  lemma SlotsApart(v: View, a: seq<nat>, b: seq<nat>, x: nat)
    requires InRange(v.shape, a) && InRange(v.shape, b)
    ensures Inside(Slot(v, a), v.data, Bytes(v.shape, v.dtype))
    ensures Within(Slot(v, a), x) && Within(Slot(v, b), x) ==> a == b
  {
    var z, n, m := Size(v.dtype), Flat(v.shape, a), Flat(v.shape, b);
    FlatBound(v.shape, a);
    MulStrict(z, n, Count(v.shape));
    MulStrict(z, n, m);
    MulStrict(z, m, n);
    if n == m { FlatInjective(v.shape, a, b); }
  }

  /** The block asked of the arena holds every element exactly when its size did not wrap around. */
  lemma BlockHoldsIff(v: View)
    ensures (forall idx :: InRange(v.shape, idx) ==> Inside(Slot(v, idx), v.data, Bytes(v.shape, v.dtype) % WORD))
        <==> Bytes(v.shape, v.dtype) < WORD
  {
    var z, n, bytes := Size(v.dtype), Count(v.shape), Bytes(v.shape, v.dtype);
    if bytes < WORD {
      forall idx | InRange(v.shape, idx)
        ensures Inside(Slot(v, idx), v.data, bytes % WORD)
      {
        SlotsApart(v, idx, idx, 0);
      }
    } else {
      var last := FlatOnto(v.shape, n - 1);
      assert z * (n - 1) + z == n * z;
      assert !Inside(Slot(v, last), v.data, bytes % WORD);
    }
  }

  /** The tensor's bytes are the i-th live block. */
  ghost predicate Placed(s: State, i: nat, v: View) {
    i < |s.live| && s.live[i].at == v.data && s.live[i].size == Bytes(v.shape, v.dtype)
  }

  /** No element of one live tensor overlaps an element of another, nor another element of its own. */
  lemma ElementsApart(s: State, i: nat, v: View, a: seq<nat>, j: nat, w: View, b: seq<nat>, x: nat)
    requires Good(s) && Placed(s, i, v) && Placed(s, j, w) && InRange(v.shape, a) && InRange(w.shape, b)
    requires i == j ==> v == w
    requires Within(Slot(v, a), x) && Within(Slot(w, b), x)
    ensures i == j && a == b
  {
    SlotsApart(v, a, a, x);
    SlotsApart(w, b, b, x);
    GoodApart(s);
    assert Within(s.live[i], x) && Within(s.live[j], x);
    if v == w { SlotsApart(v, a, b, x); }
  }

  // ---- Live tensors over a run ------------------------------------------------------------------------

  /** How far into the arena a live block reaches. */
  function Reach(s: State, i: nat): int
    requires i < |s.live|
  {
    s.live[i].at + s.live[i].size - s.base
  }

  lemma TakeKeepsPlaced(s: State, i: nat, v: View, size: nat, align: nat)
    requires align < WORD && Placed(s, i, v)
    ensures Placed(Grown(s, size, align), i, v) && Reach(Grown(s, size, align), i) == Reach(s, i)
  {
    hide Bytes;
    GrantParts(s, size, align);
    hide Grown, Granted, Given, Padding;
  }

  lemma LeaveKeepsPlaced(s: State, i: nat, v: View, mark: nat)
    requires Good(s) && Placed(s, i, v) && Reach(s, i) <= mark
    ensures Placed(Release(s, mark), i, v) && Reach(Release(s, mark), i) == Reach(s, i)
  {
    hide Bytes, Below;
    var k := BelowIsPrefix(s.live, s.base + mark);
    assert i < k;
  }

  /** A tensor stays where it is while nothing below its end is released. */
  lemma {:induction false} RunKeepsPlaced(s: State, ops: seq<Op>, i: nat, v: View, m: nat)
    requires Good(s) && AllOk(s, ops) && Placed(s, i, v) && Reach(s, i) <= m
    requires forall k :: 0 <= k < |ops| ==> Inner(ops[k], m)
    ensures Good(Run(s, ops)) && Placed(Run(s, ops), i, v)
    decreases |ops|
  {
    hide Good, Placed, Reach, Grown, Release, Need;
    if ops != [] {
      ApplyKeeps(s, ops[0]);
      assert Inner(ops[0], m);
      match ops[0] {
        case Take(size, align) => TakeKeepsPlaced(s, i, v, size, align);
        case Leave(mark) => PlacedIndex(s, i, v); LeaveKeepsPlaced(s, i, v, mark);
      }
      PlacedIndex(s, i, v);
      PlacedIndex(Apply(s, ops[0]), i, v);
      RunKeepsPlaced(Apply(s, ops[0]), ops[1..], i, v, m);
    }
  }

  /** A block just granted is the tensor's. */
  lemma GrownPlaced(s: State, shape: seq<nat>, dt: DType)
    requires 0 < Bytes(shape, dt) < WORD
    ensures var n := Bytes(shape, dt) % WORD;
            Granted(s, n, ALIGN) ==>
              Placed(Grown(s, n, ALIGN), |s.live|, View(Given(s, n, ALIGN).at, shape, dt))
  {
    hide Bytes, Granted, Grown, Given, Padding;
    GrantParts(s, Bytes(shape, dt), ALIGN);
  }

  lemma PlacedIndex(s: State, i: nat, v: View)
    requires Placed(s, i, v)
    ensures i < |s.live|
  {
  }

  /** Elements of live tensors never overlap, whatever was allocated and released above them since. */
  lemma TensorsStayApart(s: State, ops: seq<Op>, i: nat, v: View, a: seq<nat>, j: nat, w: View, b: seq<nat>, m: nat,
                         x: nat)
    requires Good(s) && AllOk(s, ops) && forall k :: 0 <= k < |ops| ==> Inner(ops[k], m)
    requires Placed(s, i, v) && Reach(s, i) <= m && Placed(s, j, w) && Reach(s, j) <= m && (i == j ==> v == w)
    requires InRange(v.shape, a) && InRange(w.shape, b) && Within(Slot(v, a), x) && Within(Slot(w, b), x)
    ensures Placed(Run(s, ops), i, v) && Placed(Run(s, ops), j, w) && i == j && a == b
  {
    hide Good, Reach, AllOk, Run, Placed;
    RunKeepsPlaced(s, ops, i, v, m);
    RunKeepsPlaced(s, ops, j, w, m);
    ElementsApart(Run(s, ops), i, v, a, j, w, b, x);
  }

  /** A square of 2^32 by 2^32 bytes has a byte count of zero modulo 2^64, so no element is in its block. */
  lemma HugeTensorOutside()
    ensures var v := View(64, [0x1_0000_0000, 0x1_0000_0000], U8);
            Bytes(v.shape, v.dtype) % WORD == 0 && InRange(v.shape, [0, 0])
            && !Inside(Slot(v, [0, 0]), v.data, Bytes(v.shape, v.dtype) % WORD)
  {
    var shape: seq<nat> := [0x1_0000_0000, 0x1_0000_0000];
    assert shape[1..] == [0x1_0000_0000] && shape[1..][1..] == [];
    assert Count(shape[1..][1..]) == 1 && Count(shape[1..]) == 0x1_0000_0000;
    assert Count(shape) == WORD;
  }

  // ---- The tensor in place ----------------------------------------------------------------------------

  lemma {:induction false} CountSnoc(shape: seq<nat>, n: nat)
    ensures Count(shape + [n]) == Count(shape) * n
  {
    if shape == [] {
      assert shape + [n] == [n] && [n][1..] == [];
    } else {
      CountSnoc(shape[1..], n);
      assert (shape + [n])[1..] == shape[1..] + [n];
      var c, k := Count(shape[1..]), shape[0];
      hide Count;
      assert (c * n) * k == (c * k) * n;
    }
  }

  lemma WrapMul(a: nat, b: nat)
    ensures (a % WORD * b) % WORD == (a * b) % WORD
  {
    var q, r := a / WORD, a % WORD;
    assert a * b == r * b + WORD * (q * b);
    WrapAdd(r * b, q * b);
  }

  lemma WrapAdd(y: nat, k: nat)
    ensures (y + WORD * k) % WORD == y % WORD
  {
    DivModUnique(y + WORD * k, WORD, y / WORD + k, y % WORD);
  }

  class BearTensor {
    var data: nat
    const shape: array<nat>
    const stride: array<nat>
    var ndim: nat
    var dtype: DType

    ghost predicate Valid()
      reads this
    {
      shape.Length == stride.Length == MAX_DIMS && shape != stride && ndim <= MAX_DIMS
    }

    ghost function Abs(): View
      reads this, shape
      requires Valid()
    {
      View(data, shape[..ndim], dtype)
    }

    ghost predicate Laid()
      reads this, shape, stride
      requires Valid()
    {
      RowMajor(shape[..ndim], stride[..ndim], Size(dtype))
    }

    constructor ()
      ensures Valid() && fresh(shape) && fresh(stride) && ndim == 0
    {
      data, ndim, dtype := 0, 0, F32;
      shape := new nat[MAX_DIMS](_ => 0);
      stride := new nat[MAX_DIMS](_ => 0);
    }

    method ComputeStrides()
      requires Valid() && ndim > 0
      modifies stride
      ensures Laid()
    {
      ghost var sh, z := shape[..ndim], Size(dtype);
      stride[ndim - 1] := Size(dtype);
      assert sh[ndim..] == [];
      for i := ndim - 1 downto 0
        invariant shape[..ndim] == sh
        invariant forall k :: i <= k < ndim ==> stride[k] == z * Count(sh[k + 1..])
      {
        assert sh[i + 1..][1..] == sh[i + 2..];
        Rotate(z, Count(sh[i + 2..]), sh[i + 1]);
        stride[i] := stride[i + 1] * shape[i + 1];
      }
    }

    /** Places a tensor in the arena: 0 on success, -1 for too many dimensions or no room. */
    method Create(a: BearArena, dims: seq<nat>, dt: DType) returns (r: int)
      requires Valid() && a.Valid() && dims != []
      modifies this, shape, stride, a`ptr, a`used, a`live
      ensures Valid() && a.Valid() && r in {0, -1}
      ensures |dims| > 4 ==> r == -1 && a.Abs() == old(a.Abs()) && Abs() == old(Abs())
      ensures r == 0 ==> data % 64 == 0
      ensures |dims| <= 4 ==>
                var n := Bytes(dims, dt) % WORD;
                && a.Abs() == Grown(old(a.Abs()), n, ALIGN)
                && (r == 0 <==> Granted(old(a.Abs()), n, ALIGN) && Given(old(a.Abs()), n, ALIGN).at != 0)
                && (r == 0 ==> Laid() && Abs() == View(Given(old(a.Abs()), n, ALIGN).at, dims, dt))
                && (r == 0 && 0 < Bytes(dims, dt) < WORD ==> Placed(a.Abs(), |old(a.live)|, Abs()))
    {
      hide Grown, Granted, Given, Placed, Count, RowMajor, Good, Need;
      if |dims| > MAX_DIMS {
        return -1;
      }
      ghost var s := a.Abs();
      assert Pow2(6) == ALIGN;
      GivenAligned(s, Bytes(dims, dt) % WORD, ALIGN);
      if 0 < Bytes(dims, dt) < WORD {
        GrownPlaced(s, dims, dt);
      }
      var elems := SetShape(dims, dt);
      var bytes := elems * Size(dtype) % WORD;
      WrapMul(Count(dims), Size(dt));
      data := a.Alloc(bytes, ALIGN);
      if data == 0 {
        return -1;
      }
      ComputeStrides();
      return 0;
    }

    /** Copies the dimensions and multiplies them up. */
    method SetShape(dims: seq<nat>, dt: DType) returns (elems: nat)
      requires Valid() && |dims| <= MAX_DIMS
      modifies this`ndim, this`dtype, shape
      ensures Valid() && ndim == |dims| && dtype == dt && shape[..ndim] == dims
      ensures elems == Count(dims) % WORD
    {
      ndim, dtype := |dims|, dt;
      elems := 1;
      for i := 0 to ndim
        invariant ndim == |dims| && dtype == dt && shape[..i] == dims[..i] && elems == Count(dims[..i]) % WORD
      {
        shape[i] := dims[i];
        assert dims[..i + 1] == dims[..i] + [dims[i]];
        CountSnoc(dims[..i], dims[i]);
        WrapMul(Count(dims[..i]), dims[i]);
        elems := elems * dims[i] % WORD;
      }
      assert dims[..|dims|] == dims;
    }

    /** The address of an element. */
    method Ptr(idx: seq<nat>) returns (p: nat)
      requires Valid() && Laid() && |idx| == ndim
      ensures p == Slot(Abs(), idx).at % WORD
    {
      DotIsFlat(shape[..ndim], stride[..ndim], Size(dtype), idx);
      var offset := Offset(idx);
      hide Dot, Flat, RowMajor;
      WrapSum(Dot(idx, stride[..ndim]), data);
      p := (data + offset) % WORD;
    }

    method Offset(idx: seq<nat>) returns (offset: nat)
      requires Valid() && |idx| == ndim
      ensures offset == Dot(idx, stride[..ndim]) % WORD
    {
      ghost var st := stride[..ndim];
      ghost var all := Dot(idx, st);
      offset := 0;
      assert idx[0..] == idx && st[0..] == st;
      for i := 0 to ndim
        invariant (offset + Dot(idx[i..], st[i..])) % WORD == all % WORD && offset < WORD
      {
        DotStep(idx, st, i);
        hide Dot;
        ghost var rest := Dot(idx[i + 1..], st[i + 1..]);
        var term: nat := idx[i] * stride[i];
        assert term == idx[i] * st[i];
        WrapSum(offset + term, rest);
        offset := (offset + term) % WORD;
      }
    }
  }

  lemma DotStep(idx: seq<nat>, stride: seq<nat>, i: nat)
    requires |idx| == |stride| && i < |idx|
    ensures Dot(idx[i..], stride[i..]) == idx[i] * stride[i] + Dot(idx[i + 1..], stride[i + 1..])
  {
    assert idx[i..][1..] == idx[i + 1..] && stride[i..][1..] == stride[i + 1..];
  }

  lemma Rotate(z: nat, c: nat, n: nat)
    ensures (z * c) * n == z * (c * n)
  {
  }

  lemma WrapSum(x: nat, y: nat)
    ensures (x % WORD + y) % WORD == (x + y) % WORD
  {
    WrapAdd(x % WORD + y, x / WORD);
  }
}
