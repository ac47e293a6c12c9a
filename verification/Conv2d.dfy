/** The reference 2D convolution: 32-bit index arithmetic, the work items and the cells they write, and the
    result as convolution over the zero-padded input. */
module Conv2d {
  import opened Arithmetic

  datatype Dims = Dims(batch: nat, inChannels: nat, height: nat, width: nat, outChannels: nat,
                       kernelH: nat, kernelW: nat, stride: nat, padding: nat)

  const TWO32: nat := 0x1_0000_0000
  const TWO31: nat := 0x8000_0000

  /** Unsigned 32-bit arithmetic wraps. */
  function U32(x: int): nat {
    x % TWO32
  }

  /** The 32-bit number read as a signed one. */
  function I32(x: int): int {
    if U32(x) < TWO31 then U32(x) else U32(x) - TWO32
  }

  function OutSize(size: nat, kernel: nat, stride: nat, padding: nat): nat
    requires stride > 0
  {
    U32(U32(U32(size + U32(2 * padding)) - kernel) / stride + 1)
  }

  function OutH(d: Dims): nat
    requires d.stride > 0
  {
    OutSize(d.height, d.kernelH, d.stride, d.padding)
  }

  function OutW(d: Dims): nat
    requires d.stride > 0
  {
    OutSize(d.width, d.kernelW, d.stride, d.padding)
  }

  function Volume(a: nat, b: nat, c: nat, e: nat): nat {
    a * b * c * e
  }

  /** The input and the weights have fewer cells than 32 bits can number. */
  ghost predicate FitsInputs(d: Dims) {
    && Volume(d.batch, d.inChannels, d.height, d.width) < TWO32
    && Volume(d.outChannels, d.inChannels, d.kernelH, d.kernelW) < TWO32
  }

  /** The size is a signed number, the padded size an unsigned one, and the kernel fits into it. */
  ghost predicate AxisFits(size: nat, kernel: nat, padding: nat) {
    size < TWO31 && kernel <= size + 2 * padding < TWO32
  }

  /** The kernel fits into the padded input, and no size overflows. */
  ghost predicate Fits(d: Dims) {
    && d.stride > 0
    && AxisFits(d.height, d.kernelH, d.padding) && AxisFits(d.width, d.kernelW, d.padding)
    && FitsInputs(d)
    && OutVolume(d) < TWO32
  }

  // ----- mixed radix numbers

  /** The index of position (a, b, c, e) in an array of m by n by p by q cells. */
  function Flat(n: nat, p: nat, q: nat, a: nat, b: nat, c: nat, e: nat): nat {
    ((a * n + b) * p + c) * q + e
  }

  datatype Position = Position(a: nat, b: nat, c: nat, e: nat)

  function Unflat(n: nat, p: nat, q: nat, o: nat): Position
    requires n > 0 && p > 0 && q > 0
  {
    var x: nat := o / q;
    var y: nat := x / p;
    Position(y / n, y % n, x % p, o % q)
  }

  lemma FlatBelow(m: nat, n: nat, p: nat, q: nat, a: nat, b: nat, c: nat, e: nat)
    requires a < m && b < n && c < p && e < q
    ensures Flat(n, p, q, a, b, c, e) < Volume(m, n, p, q)
  {
    Below(a, m, b, n);
    Below(a * n + b, m * n, c, p);
    Below((a * n + b) * p + c, m * n * p, e, q);
  }

  lemma UnflatByDigits(n: nat, p: nat, q: nat, o: nat, x: nat, y: nat, i: Position)
    requires n > 0 && p > 0 && q > 0
    requires o / q == x && o % q == i.e && x / p == y && x % p == i.c && y / n == i.a && y % n == i.b
    ensures Unflat(n, p, q, o) == i
  {
  }

  lemma UnflatOfFlat(n: nat, p: nat, q: nat, a: nat, b: nat, c: nat, e: nat)
    requires b < n && c < p && e < q
    ensures Unflat(n, p, q, Flat(n, p, q, a, b, c, e)) == Position(a, b, c, e)
  {
    var y := a * n + b;
    var x := y * p + c;
    DivMod(a, b, n);
    DivMod(y, c, p);
    DivMod(x, e, q);
    UnflatByDigits(n, p, q, Flat(n, p, q, a, b, c, e), x, y, Position(a, b, c, e));
  }

  lemma VolumePositive(m: nat, n: nat, p: nat, q: nat)
    requires Volume(m, n, p, q) > 0
    ensures m > 0 && n > 0 && p > 0 && q > 0
  {
    Positive(m * n * p, q);
    Positive(m * n, p);
    Positive(m, n);
  }

  lemma FlatOfUnflat(m: nat, n: nat, p: nat, q: nat, o: nat)
    requires n > 0 && p > 0 && q > 0 && o < Volume(m, n, p, q)
    ensures var u := Unflat(n, p, q, o);
      u.a < m && u.b < n && u.c < p && u.e < q && Flat(n, p, q, u.a, u.b, u.c, u.e) == o
  {
    QuotientBelow(o, m * n * p, q);
    QuotientBelow(o / q, m * n, p);
    QuotientBelow(o / q / p, m, n);
  }

  // ----- the same index in 32-bit arithmetic

  function Prod32(x: int, y: nat): nat {
    U32(x * y)
  }

  function Sum32(x: nat, y: nat, z: nat, e: int): nat {
    U32(U32(U32(x + y) + z) + e)
  }

  /** The sum of products by which the code computes an index. */
  function Index32(n: nat, p: nat, q: nat, a: nat, b: nat, c: int, e: int): nat {
    Sum32(Prod32(Prod32(Prod32(a, n), p), q), Prod32(Prod32(b, p), q), Prod32(c, q), e)
  }

  lemma ProdExact(x: nat, y: nat)
    requires x * y < TWO32
    ensures Prod32(x, y) == x * y
  {
  }

  lemma SumExact(x: nat, y: nat, z: nat, e: nat)
    requires x + y + z + e < TWO32
    ensures Sum32(x, y, z, e) == x + y + z + e
  {
  }

  lemma FlatAsSum(n: nat, p: nat, q: nat, a: nat, b: nat, c: nat, e: nat)
    ensures a * n * p * q + b * p * q + c * q + e == Flat(n, p, q, a, b, c, e)
  {
    Spread(a * n, b, p);
    Spread((a * n + b) * p, c, q);
    Spread(a * n * p, b * p, q);
  }

  /** A product that is small enough is small enough after every factor. */
  lemma ProductExact(x: nat, n: nat, p: nat)
    requires p > 0 && x * n * p < TWO32
    ensures Prod32(Prod32(x, n), p) == x * n * p
  {
    Grows(x * n, p);
    ProdExact(x, n);
    ProdExact(x * n, p);
  }

  lemma TripleProductExact(x: nat, n: nat, p: nat, q: nat)
    requires p > 0 && q > 0 && x * n * p * q < TWO32
    ensures Prod32(Prod32(Prod32(x, n), p), q) == x * n * p * q
  {
    Grows(x * n * p, q);
    ProductExact(x, n, p);
    ProdExact(x * n * p, q);
  }

  lemma Index32OfParts(n: nat, p: nat, q: nat, a: nat, b: nat, c: nat, e: nat, x: nat, y: nat, z: nat)
    requires Prod32(Prod32(Prod32(a, n), p), q) == x && Prod32(Prod32(b, p), q) == y && Prod32(c, q) == z
    requires x + y + z + e < TWO32
    ensures Index32(n, p, q, a, b, c, e) == x + y + z + e
  {
    SumExact(x, y, z, e);
  }

  lemma Index32OfSums(n: nat, p: nat, q: nat, a: nat, b: nat, c: nat, e: nat, x: nat, y: nat, z: nat)
    requires p > 0 && q > 0 && x == a * n * p * q && y == b * p * q && z == c * q && x + y + z + e < TWO32
    ensures Index32(n, p, q, a, b, c, e) == x + y + z + e
  {
    TripleProductExact(a, n, p, q);
    ProductExact(b, p, q);
    ProdExact(c, q);
    Index32OfParts(n, p, q, a, b, c, e, x, y, z);
  }

  /** For a position inside a volume that 32 bits can hold, no step of computing the index wraps. */
  lemma Index32IsFlat(m: nat, n: nat, p: nat, q: nat, a: nat, b: nat, c: nat, e: nat)
    requires a < m && b < n && c < p && e < q && Volume(m, n, p, q) < TWO32
    ensures Index32(n, p, q, a, b, c, e) == Flat(n, p, q, a, b, c, e) < Volume(m, n, p, q)
    ensures Flat(n, p, q, a, b, c, e) == ((a * n + b) * p + c) * q + e
  {
    FlatBelow(m, n, p, q, a, b, c, e);
    FlatAsSum(n, p, q, a, b, c, e);
    Index32OfSums(n, p, q, a, b, c, e, a * n * p * q, b * p * q, c * q);
  }

  // ----- work items and the cells they write

  datatype Item = Item(b: nat, oc: nat, oh: nat, ow: nat)

  ghost predicate InRange(d: Dims, i: Item)
    requires d.stride > 0
  {
    i.b < d.batch && i.oc < d.outChannels && i.oh < OutH(d) && i.ow < OutW(d)
  }

  function OutIndex(d: Dims, i: Item): nat
    requires d.stride > 0
  {
    Index32(d.outChannels, OutH(d), OutW(d), i.b, i.oc, i.oh, i.ow)
  }

  function OutVolume(d: Dims): nat
    requires d.stride > 0
  {
    Volume(d.batch, d.outChannels, OutH(d), OutW(d))
  }

  /** The work item that writes cell o. */
  function ItemAt(d: Dims, o: nat): Item
    requires d.stride > 0 && o < OutVolume(d)
  {
    VolumePositive(d.batch, d.outChannels, OutH(d), OutW(d));
    var u := Unflat(d.outChannels, OutH(d), OutW(d), o);
    Item(u.a, u.b, u.c, u.e)
  }

  /** Different work items write different cells, all of them inside the output. */
  lemma ItemsAreCells(d: Dims, i: Item)
    requires d.stride > 0 && OutVolume(d) < TWO32 && InRange(d, i)
    ensures OutIndex(d, i) < OutVolume(d) && ItemAt(d, OutIndex(d, i)) == i
  {
    Index32IsFlat(d.batch, d.outChannels, OutH(d), OutW(d), i.b, i.oc, i.oh, i.ow);
    UnflatOfFlat(d.outChannels, OutH(d), OutW(d), i.b, i.oc, i.oh, i.ow);
  }

  /** And every cell of the output is written by the work item that its index encodes. */
  lemma CellsAreItems(d: Dims, o: nat)
    requires d.stride > 0 && OutVolume(d) < TWO32 && o < OutVolume(d)
    ensures InRange(d, ItemAt(d, o)) && OutIndex(d, ItemAt(d, o)) == o
  {
    VolumePositive(d.batch, d.outChannels, OutH(d), OutW(d));
    FlatOfUnflat(d.batch, d.outChannels, OutH(d), OutW(d), o);
    var i := ItemAt(d, o);
    Index32IsFlat(d.batch, d.outChannels, OutH(d), OutW(d), i.b, i.oc, i.oh, i.ow);
  }

  // ----- coordinates

  /** The input coordinate as the code computes it: an unsigned difference that may wrap, read as signed. */
  function Coord32(o: nat, stride: nat, k: nat, padding: nat): int {
    I32(U32(U32(o * stride) + k) - padding)
  }

  lemma NoWrap(x: nat)
    requires x < TWO32
    ensures U32(x) == x
  {
  }

  lemma SpanExact(size: nat, kernel: nat, padding: nat)
    requires AxisFits(size, kernel, padding)
    ensures U32(U32(size + U32(2 * padding)) - kernel) == size + 2 * padding - kernel
  {
    NoWrap(2 * padding);
    NoWrap(size + 2 * padding);
    NoWrap(size + 2 * padding - kernel);
  }

  /** The one case in which adding one to the quotient wraps. */
  ghost predicate CountWraps(size: nat, kernel: nat, stride: nat, padding: nat) {
    kernel == 0 && stride == 1 && size + 2 * padding == TWO32 - 1
  }

  lemma OutSizeExact(size: nat, kernel: nat, stride: nat, padding: nat)
    requires stride > 0 && AxisFits(size, kernel, padding)
    ensures OutSize(size, kernel, stride, padding) ==
      if CountWraps(size, kernel, stride, padding) then 0 else (size + 2 * padding - kernel) / stride + 1
  {
    SpanExact(size, kernel, padding);
    var x, q := size + 2 * padding - kernel, (size + 2 * padding - kernel) / stride;
    QuotientBounds(x, stride);
    if stride > 1 {
      Monotone(2, stride, q);
    }
    if !CountWraps(size, kernel, stride, padding) {
      NoWrap(q + 1);
    }
  }

  /** At output coordinate o the kernel lies inside the padded input. */
  ghost predicate Lies(size: nat, kernel: nat, stride: nat, padding: nat, o: nat) {
    o * stride + kernel <= size + 2 * padding
  }

  /** Unless the count wraps, the output has exactly the coordinates at which the kernel lies inside the padded
      input; when it wraps the output is empty. */
  lemma OutSizeIff(size: nat, kernel: nat, stride: nat, padding: nat, o: nat)
    requires stride > 0 && AxisFits(size, kernel, padding)
    ensures o < OutSize(size, kernel, stride, padding) <==>
      Lies(size, kernel, stride, padding, o) && !CountWraps(size, kernel, stride, padding)
  {
    OutSizeExact(size, kernel, stride, padding);
    QuotientIff(size + 2 * padding - kernel, stride, o);
  }

  /** The signed coordinate passes the bounds test exactly if the true one is inside, and then it is the true one. */
  ghost predicate Tests(c: int, x: int, size: nat) {
    (0 <= c < size <==> 0 <= x < size) && (0 <= c < size ==> c == x)
  }

  lemma CoordTests(size: nat, kernel: nat, stride: nat, padding: nat, o: nat, k: nat)
    requires Lies(size, kernel, stride, padding, o) && AxisFits(size, kernel, padding) && k < kernel
    ensures Tests(Coord32(o, stride, k, padding), o * stride + k - padding, size)
  {
    SignedDifference(o * stride, k, padding);
  }

  /** A difference beyond the signed range turns negative. */
  lemma SignedDifference(x: nat, k: nat, padding: nat)
    requires x + k < TWO32 && padding < TWO31
    ensures var y := x + k - padding; I32(U32(U32(x) + k) - padding) == if y < TWO31 then y else y - TWO32
  {
    NoWrap(x);
    NoWrap(x + k);
  }

  // ----- convolution over the zero-padded input

  /** A four-dimensional array by position. */
  type Tensor = (int, int, int, int) -> real

  /** The buffer lists the tensor's cells in index order. */
  ghost predicate Holds(m: nat, n: nat, p: nat, q: nat, cells: seq<real>, t: Tensor) {
    && |cells| == Volume(m, n, p, q)
    && forall a: nat, b: nat, c: nat, e: nat {:trigger Flat(n, p, q, a, b, c, e)} :: a < m && b < n && c < p && e < q ==>
         HasCell(cells, Flat(n, p, q, a, b, c, e), t(a, b, c, e))
  }

  predicate HasCell(cells: seq<real>, k: nat, v: real) {
    k < |cells| && cells[k] == v
  }

  /** Every buffer of the right size holds a tensor. */
  lemma HoldsSome(m: nat, n: nat, p: nat, q: nat, cells: seq<real>) returns (t: Tensor)
    requires |cells| == Volume(m, n, p, q)
    ensures Holds(m, n, p, q, cells, t)
  {
    t := (a: int, b: int, c: int, e: int) =>
      if a < 0 || b < 0 || c < 0 || e < 0 then 0.0
      else
        var k := Flat(n, p, q, a, b, c, e);
        if k < |cells| then cells[k] else 0.0;
    forall a: nat, b: nat, c: nat, e: nat | a < m && b < n && c < p && e < q
      ensures HasCell(cells, Flat(n, p, q, a, b, c, e), t(a, b, c, e))
    {
      FlatBelow(m, n, p, q, a, b, c, e);
    }
  }

  /** The input with padding zeros on each side of every image. */
  ghost function Padded(d: Dims, x: Tensor, b: nat, ic: nat, row: nat, col: nat): real {
    if d.padding <= row < d.padding + d.height && d.padding <= col < d.padding + d.width then
      x(b, ic, row - d.padding, col - d.padding)
    else 0.0
  }

  /** One product: a cell of the padded input times the weight that lies over it. */
  ghost function Term(d: Dims, x: Tensor, w: Tensor, i: Item, ic: nat, kh: nat, kw: nat): real {
    Padded(d, x, i.b, ic, i.oh * d.stride + kh, i.ow * d.stride + kw) * w(i.oc, ic, kh, kw)
  }

  ghost function RowSum(d: Dims, x: Tensor, w: Tensor, i: Item, ic: nat, kh: nat, n: nat): real {
    if n == 0 then 0.0 else RowSum(d, x, w, i, ic, kh, n - 1) + Term(d, x, w, i, ic, kh, n - 1)
  }

  ghost function PlaneSum(d: Dims, x: Tensor, w: Tensor, i: Item, ic: nat, n: nat): real {
    if n == 0 then 0.0 else PlaneSum(d, x, w, i, ic, n - 1) + RowSum(d, x, w, i, ic, n - 1, d.kernelW)
  }

  ghost function ChannelSum(d: Dims, x: Tensor, w: Tensor, i: Item, n: nat): real {
    if n == 0 then 0.0 else ChannelSum(d, x, w, i, n - 1) + PlaneSum(d, x, w, i, n - 1, d.kernelH)
  }

  /** The convolution at one output position. */
  ghost function Conv(d: Dims, x: Tensor, w: Tensor, i: Item): real {
    ChannelSum(d, x, w, i, d.inChannels)
  }

  /** The convolution of a batch. */
  ghost function Convolution(d: Dims, x: Tensor, w: Tensor): Tensor {
    (b: int, oc: int, oh: int, ow: int) =>
      if b >= 0 && oc >= 0 && oh >= 0 && ow >= 0 then Conv(d, x, w, Item(b, oc, oh, ow)) else 0.0
  }

  // ----- what the sums compute: linear in the weights, and each single weight selects one input cell

  ghost function Plus(v: Tensor, w: Tensor): Tensor {
    (a: int, b: int, c: int, e: int) => v(a, b, c, e) + w(a, b, c, e)
  }

  ghost function Times(r: real, w: Tensor): Tensor {
    (a: int, b: int, c: int, e: int) => r * w(a, b, c, e)
  }

  /** One at a single position, zero elsewhere. */
  ghost function Impulse(oc: nat, ic: nat, kh: nat, kw: nat): Tensor {
    (a: int, b: int, c: int, e: int) => if a == oc && b == ic && c == kh && e == kw then 1.0 else 0.0
  }

  /** The input cell, or zero outside the input. */
  ghost function CellOrZero(d: Dims, x: Tensor, b: nat, ic: nat, ih: int, iw: int): real {
    if 0 <= ih < d.height && 0 <= iw < d.width then x(b, ic, ih, iw) else 0.0
  }

  lemma {:induction false} RowPlus(d: Dims, x: Tensor, v: Tensor, w: Tensor, i: Item, ic: nat, kh: nat, n: nat)
    ensures RowSum(d, x, Plus(v, w), i, ic, kh, n) == RowSum(d, x, v, i, ic, kh, n) + RowSum(d, x, w, i, ic, kh, n)
  {
    if n > 0 {
      RowPlus(d, x, v, w, i, ic, kh, n - 1);
      TermPlus(d, x, v, w, i, ic, kh, n - 1);
    }
  }

  lemma TermPlus(d: Dims, x: Tensor, v: Tensor, w: Tensor, i: Item, ic: nat, kh: nat, kw: nat)
    ensures Term(d, x, Plus(v, w), i, ic, kh, kw) == Term(d, x, v, i, ic, kh, kw) + Term(d, x, w, i, ic, kh, kw)
  {
    Distribute(Padded(d, x, i.b, ic, i.oh * d.stride + kh, i.ow * d.stride + kw), v(i.oc, ic, kh, kw), w(i.oc, ic, kh, kw));
  }

  lemma Distribute(p: real, q: real, r: real)
    ensures p * (q + r) == p * q + p * r
  {
  }

  lemma {:induction false} PlanePlus(d: Dims, x: Tensor, v: Tensor, w: Tensor, i: Item, ic: nat, n: nat)
    ensures PlaneSum(d, x, Plus(v, w), i, ic, n) == PlaneSum(d, x, v, i, ic, n) + PlaneSum(d, x, w, i, ic, n)
  {
    if n > 0 {
      PlanePlus(d, x, v, w, i, ic, n - 1);
      RowPlus(d, x, v, w, i, ic, n - 1, d.kernelW);
    }
  }

  lemma {:induction false} ChannelPlus(d: Dims, x: Tensor, v: Tensor, w: Tensor, i: Item, n: nat)
    ensures ChannelSum(d, x, Plus(v, w), i, n) == ChannelSum(d, x, v, i, n) + ChannelSum(d, x, w, i, n)
  {
    if n > 0 {
      ChannelPlus(d, x, v, w, i, n - 1);
      PlanePlus(d, x, v, w, i, n - 1, d.kernelH);
    }
  }

  ghost predicate IsScaled(r: real, a: real, b: real) {
    b == r * a
  }

  lemma SumScaled(r: real, a: real, b: real, a': real, b': real)
    requires IsScaled(r, a, a') && IsScaled(r, b, b')
    ensures IsScaled(r, a + b, a' + b')
  {
    Distribute(r, a, b);
  }

  lemma Associate(r: real, p: real, q: real)
    ensures p * (r * q) == r * (p * q)
  {
  }

  lemma TermTimes(d: Dims, x: Tensor, r: real, w: Tensor, i: Item, ic: nat, kh: nat, kw: nat)
    ensures IsScaled(r, Term(d, x, w, i, ic, kh, kw), Term(d, x, Times(r, w), i, ic, kh, kw))
  {
    Associate(r, Padded(d, x, i.b, ic, i.oh * d.stride + kh, i.ow * d.stride + kw), w(i.oc, ic, kh, kw));
  }

  lemma ZeroScaled(r: real)
    ensures IsScaled(r, 0.0, 0.0)
  {
  }

  lemma {:induction false} RowTimes(d: Dims, x: Tensor, r: real, w: Tensor, i: Item, ic: nat, kh: nat, n: nat)
    ensures IsScaled(r, RowSum(d, x, w, i, ic, kh, n), RowSum(d, x, Times(r, w), i, ic, kh, n))
  {
    if n == 0 {
      ZeroScaled(r);
    } else {
      RowTimes(d, x, r, w, i, ic, kh, n - 1);
      TermTimes(d, x, r, w, i, ic, kh, n - 1);
      SumScaled(r, RowSum(d, x, w, i, ic, kh, n - 1), Term(d, x, w, i, ic, kh, n - 1),
        RowSum(d, x, Times(r, w), i, ic, kh, n - 1), Term(d, x, Times(r, w), i, ic, kh, n - 1));
    }
  }

  lemma {:induction false} PlaneTimes(d: Dims, x: Tensor, r: real, w: Tensor, i: Item, ic: nat, n: nat)
    ensures IsScaled(r, PlaneSum(d, x, w, i, ic, n), PlaneSum(d, x, Times(r, w), i, ic, n))
  {
    if n == 0 {
      ZeroScaled(r);
    } else {
      PlaneTimes(d, x, r, w, i, ic, n - 1);
      RowTimes(d, x, r, w, i, ic, n - 1, d.kernelW);
      SumScaled(r, PlaneSum(d, x, w, i, ic, n - 1), RowSum(d, x, w, i, ic, n - 1, d.kernelW),
        PlaneSum(d, x, Times(r, w), i, ic, n - 1), RowSum(d, x, Times(r, w), i, ic, n - 1, d.kernelW));
    }
  }

  lemma {:induction false} ChannelTimes(d: Dims, x: Tensor, r: real, w: Tensor, i: Item, n: nat)
    ensures IsScaled(r, ChannelSum(d, x, w, i, n), ChannelSum(d, x, Times(r, w), i, n))
  {
    if n == 0 {
      ZeroScaled(r);
    } else {
      ChannelTimes(d, x, r, w, i, n - 1);
      PlaneTimes(d, x, r, w, i, n - 1, d.kernelH);
      SumScaled(r, ChannelSum(d, x, w, i, n - 1), PlaneSum(d, x, w, i, n - 1, d.kernelH),
        ChannelSum(d, x, Times(r, w), i, n - 1), PlaneSum(d, x, Times(r, w), i, n - 1, d.kernelH));
    }
  }

  /** The convolution is linear in the weights. */
  lemma ConvIsLinear(d: Dims, x: Tensor, v: Tensor, w: Tensor, r: real, b: nat, oc: nat, oh: nat, ow: nat)
    ensures Convolution(d, x, Plus(v, w))(b, oc, oh, ow) == Convolution(d, x, v)(b, oc, oh, ow) + Convolution(d, x, w)(b, oc, oh, ow)
    ensures Convolution(d, x, Times(r, w))(b, oc, oh, ow) == r * Convolution(d, x, w)(b, oc, oh, ow)
  {
    ChannelPlus(d, x, v, w, Item(b, oc, oh, ow), d.inChannels);
    ChannelTimes(d, x, r, w, Item(b, oc, oh, ow), d.inChannels);
  }

  lemma {:induction false} RowImpulse(d: Dims, x: Tensor, oc: nat, ic: nat, kh: nat, kw: nat, i: Item, jc: nat, jh: nat, n: nat)
    ensures RowSum(d, x, Impulse(oc, ic, kh, kw), i, jc, jh, n) ==
      if i.oc == oc && jc == ic && jh == kh && kw < n
      then Padded(d, x, i.b, ic, i.oh * d.stride + kh, i.ow * d.stride + kw) else 0.0
  {
    if n > 0 {
      RowImpulse(d, x, oc, ic, kh, kw, i, jc, jh, n - 1);
    }
  }

  lemma {:induction false} PlaneImpulse(d: Dims, x: Tensor, oc: nat, ic: nat, kh: nat, kw: nat, i: Item, jc: nat, n: nat)
    requires kw < d.kernelW
    ensures PlaneSum(d, x, Impulse(oc, ic, kh, kw), i, jc, n) ==
      if i.oc == oc && jc == ic && kh < n
      then Padded(d, x, i.b, ic, i.oh * d.stride + kh, i.ow * d.stride + kw) else 0.0
  {
    if n > 0 {
      PlaneImpulse(d, x, oc, ic, kh, kw, i, jc, n - 1);
      RowImpulse(d, x, oc, ic, kh, kw, i, jc, n - 1, d.kernelW);
    }
  }

  lemma {:induction false} ChannelImpulse(d: Dims, x: Tensor, oc: nat, ic: nat, kh: nat, kw: nat, i: Item, n: nat)
    requires kw < d.kernelW && kh < d.kernelH
    ensures ChannelSum(d, x, Impulse(oc, ic, kh, kw), i, n) ==
      if i.oc == oc && ic < n
      then Padded(d, x, i.b, ic, i.oh * d.stride + kh, i.ow * d.stride + kw) else 0.0
  {
    if n > 0 {
      ChannelImpulse(d, x, oc, ic, kh, kw, i, n - 1);
      PlaneImpulse(d, x, oc, ic, kh, kw, i, n - 1, d.kernelH);
    }
  }

  /** A single weight of one puts, at every output position of its channel, the input cell under it, and zero where that
      lies in the padding; other output channels stay zero. With linearity this fixes the operation. */
  lemma ConvOfImpulse(d: Dims, x: Tensor, oc: nat, ic: nat, kh: nat, kw: nat, b: nat, jc: nat, oh: nat, ow: nat)
    requires ic < d.inChannels && kh < d.kernelH && kw < d.kernelW
    ensures Convolution(d, x, Impulse(oc, ic, kh, kw))(b, jc, oh, ow) ==
      if jc == oc then CellOrZero(d, x, b, ic, oh * d.stride + kh - d.padding, ow * d.stride + kw - d.padding) else 0.0
  {
    ChannelImpulse(d, x, oc, ic, kh, kw, Item(b, jc, oh, ow), d.inChannels);
  }

  ghost predicate Inputs(d: Dims, input: seq<real>, kernel: seq<real>, x: Tensor, w: Tensor) {
    && Holds(d.batch, d.inChannels, d.height, d.width, input, x)
    && Holds(d.outChannels, d.inChannels, d.kernelH, d.kernelW, kernel, w)
  }

  /** What a work item relies on: its image and channel exist, and its kernel lies inside the padded input. */
  ghost predicate Runs(d: Dims, i: Item) {
    && i.b < d.batch && i.oc < d.outChannels
    && AxisFits(d.height, d.kernelH, d.padding) && AxisFits(d.width, d.kernelW, d.padding)
    && Lies(d.height, d.kernelH, d.stride, d.padding, i.oh)
    && Lies(d.width, d.kernelW, d.stride, d.padding, i.ow)
  }

  lemma InRangeRuns(d: Dims, i: Item)
    requires Fits(d) && InRange(d, i)
    ensures Runs(d, i)
  {
    OutSizeIff(d.height, d.kernelH, d.stride, d.padding, i.oh);
    OutSizeIff(d.width, d.kernelW, d.stride, d.padding, i.ow);
  }

  // ----- the kernel and its launch

  method Coordinate(ghost size: nat, ghost kernel: nat, stride: nat, padding: nat, o: nat, k: nat) returns (c: int)
    requires Lies(size, kernel, stride, padding, o) && AxisFits(size, kernel, padding) && k < kernel
    ensures Tests(c, o * stride + k - padding, size)
  {
    CoordTests(size, kernel, stride, padding, o, k);
    c := Coord32(o, stride, k, padding);
  }

  /** The bounds test of one coordinate, with the size cast to a signed number. */
  method Inside(c: int, size: nat) returns (r: bool)
    requires size < TWO31
    ensures r <==> 0 <= c < size
  {
    r := c >= 0 && c < I32(size);
  }

  /** Reads a cell at its 32-bit index, which is in range. */
  method ReadCell(ghost m: nat, n: nat, p: nat, q: nat, cells: array<real>, ghost t: Tensor,
                  a: nat, b: nat, c: nat, e: nat)
    returns (v: real)
    requires Holds(m, n, p, q, cells[..], t) && Volume(m, n, p, q) < TWO32
    requires a < m && b < n && c < p && e < q
    ensures v == t(a, b, c, e)
  {
    Index32IsFlat(m, n, p, q, a, b, c, e);
    v := cells[Index32(n, p, q, a, b, c, e)];
  }

  /** The body of the innermost loop: nothing outside the input, else a product. */
  method AddTerm(d: Dims, input: array<real>, kernel: array<real>, ghost x: Tensor, ghost w: Tensor,
                 i: Item, ic: nat, kh: nat, kw: nat, sum: real)
    returns (next: real)
    requires Runs(d, i) && FitsInputs(d) && Inputs(d, input[..], kernel[..], x, w)
    requires ic < d.inChannels && kh < d.kernelH && kw < d.kernelW
    ensures next == sum + Term(d, x, w, i, ic, kh, kw)
  {
    next := sum;
    var ih := Coordinate(d.height, d.kernelH, d.stride, d.padding, i.oh, kh);
    var iw := Coordinate(d.width, d.kernelW, d.stride, d.padding, i.ow, kw);
    var rowInside := Inside(ih, d.height);
    var columnInside := Inside(iw, d.width);
    if rowInside && columnInside {
      var v := ReadCell(d.batch, d.inChannels, d.height, d.width, input, x, i.b, ic, ih, iw);
      var weight := ReadCell(d.outChannels, d.inChannels, d.kernelH, d.kernelW, kernel, w, i.oc, ic, kh, kw);
      next := sum + v * weight;
    }
  }

  /** The nested loops of one work item, over channels and kernel. */
  method Accumulate(d: Dims, input: array<real>, kernel: array<real>, ghost x: Tensor, ghost w: Tensor, i: Item)
    returns (sum: real)
    requires Runs(d, i) && FitsInputs(d) && Inputs(d, input[..], kernel[..], x, w)
    ensures sum == Conv(d, x, w, i)
  {
    sum := 0.0;
    for ic := 0 to d.inChannels
      invariant sum == ChannelSum(d, x, w, i, ic)
    {
      for kh := 0 to d.kernelH
        invariant sum == ChannelSum(d, x, w, i, ic) + PlaneSum(d, x, w, i, ic, kh)
      {
        for kw := 0 to d.kernelW
          invariant sum == ChannelSum(d, x, w, i, ic) + PlaneSum(d, x, w, i, ic, kh) + RowSum(d, x, w, i, ic, kh, kw)
        {
          sum := AddTerm(d, input, kernel, x, w, i, ic, kh, kw, sum);
        }
      }
    }
  }

  /** The work of one item: the sum, and one write. */
  method RunItem(d: Dims, input: array<real>, kernel: array<real>, output: array<real>,
                 ghost x: Tensor, ghost w: Tensor, i: Item)
    requires Fits(d) && Inputs(d, input[..], kernel[..], x, w) && InRange(d, i)
    requires output.Length == OutVolume(d)
    modifies output
    ensures OutIndex(d, i) < output.Length
    ensures output[..] == old(output[..])[OutIndex(d, i) := Conv(d, x, w, i)]
  {
    InRangeRuns(d, i);
    var sum := Accumulate(d, input, kernel, x, w, i);
    ItemsAreCells(d, i);
    output[OutIndex(d, i)] := sum;
  }

  /** The work items in some order, each at least once. */
  ghost predicate Schedules(d: Dims, order: seq<Item>)
    requires d.stride > 0
  {
    && (forall j :: 0 <= j < |order| ==> InRange(d, order[j]))
    && forall i :: InRange(d, i) ==> i in order
  }

  ghost predicate Done(d: Dims, output: seq<real>, x: Tensor, w: Tensor, i: Item)
    requires d.stride > 0
  {
    HasCell(output, OutIndex(d, i), Conv(d, x, w, i))
  }

  /** Writing one item's cell finishes that item and disturbs no other. */
  lemma WriteKeepsDone(d: Dims, before: seq<real>, x: Tensor, w: Tensor, i: Item, k: Item)
    requires Fits(d) && InRange(d, i) && InRange(d, k) && |before| == OutVolume(d)
    requires k == i || Done(d, before, x, w, k)
    ensures OutIndex(d, i) < |before|
    ensures Done(d, before[OutIndex(d, i) := Conv(d, x, w, i)], x, w, k)
  {
    ItemsAreCells(d, i);
    ItemsAreCells(d, k);
  }

  /** Once every item is done, the output buffer holds the convolution, every cell of it. */
  lemma AllDone(d: Dims, output: seq<real>, x: Tensor, w: Tensor)
    requires Fits(d) && |output| == OutVolume(d)
    requires forall i :: InRange(d, i) ==> Done(d, output, x, w, i)
    ensures Holds(d.batch, d.outChannels, OutH(d), OutW(d), output, Convolution(d, x, w))
  {
    forall b: nat, oc: nat, oh: nat, ow: nat | b < d.batch && oc < d.outChannels && oh < OutH(d) && ow < OutW(d)
      ensures HasCell(output, Flat(d.outChannels, OutH(d), OutW(d), b, oc, oh, ow), Conv(d, x, w, Item(b, oc, oh, ow)))
    {
      assert Done(d, output, x, w, Item(b, oc, oh, ow));
      Index32IsFlat(d.batch, d.outChannels, OutH(d), OutW(d), b, oc, oh, ow);
    }
  }

  /** Whatever order the items run in, the output ends up as the convolution over the zero-padded input. */
  method Convolve(d: Dims, input: array<real>, kernel: array<real>, output: array<real>, order: seq<Item>,
                  ghost x: Tensor, ghost w: Tensor)
    requires Fits(d) && Inputs(d, input[..], kernel[..], x, w) && Schedules(d, order)
    requires output.Length == OutVolume(d) && output != input && output != kernel
    modifies output
    ensures Holds(d.batch, d.outChannels, OutH(d), OutW(d), output[..], Convolution(d, x, w))
  {
    for j := 0 to |order|
      invariant Inputs(d, input[..], kernel[..], x, w)
      invariant forall k :: 0 <= k < j ==> Done(d, output[..], x, w, order[k])
    {
      ghost var before := output[..];
      RunItem(d, input, kernel, output, x, w, order[j]);
      forall k | 0 <= k < j + 1
        ensures Done(d, output[..], x, w, order[k])
      {
        WriteKeepsDone(d, before, x, w, order[j], order[k]);
      }
    }
    AllDone(d, output[..], x, w);
  }
}
