/** Function files: trees of byte functions with memo nodes anywhere in them, and the lazily
    evaluated file that writes the input and reads the output of such a tree. */
module FunctionFiles {
  import opened Arithmetic
  import opened ByteStrings
  import opened Text
  import opened Wrappers
  import opened LineFunctions

  /** A tree of functions. Memo nodes are objects: the same one may occur in several places and trees. */
  datatype FunctionFile =
    | Base(f: ByteFunction)
    | Composed(first: FunctionFile, second: FunctionFile)
    | MapLines(inner: FunctionFile)
    | FilterLines(inner: FunctionFile)
    | Reduce(inner: FunctionFile, initial: Bytes)
    | Memoized(memo: MemoizedFunction)

  class MemoizedFunction {
    const inner: FunctionFile
    var cache: map<Bytes, Bytes>
    /** Above the height of the memoised function, which exists before its memo node does. */
    ghost const height: nat

    constructor (inner: FunctionFile)
      requires Built(inner)
      ensures this.inner == inner && cache == map[] && Built(Memoized(this)) && CacheRight()
    {
      this.inner := inner;
      cache := map[];
      height := Height(inner);
    }

    ghost predicate CacheRight()
      reads this
    {
      Height(inner) <= height && Built(inner) && forall x :: x in cache ==> Denote(inner, x) == Ok(cache[x])
    }
  }

  ghost function Height(f: FunctionFile): nat {
    match f
    case Base(_) => 0
    case Composed(a, b) => 1 + if Height(a) > Height(b) then Height(a) else Height(b)
    case MapLines(g) => 1 + Height(g)
    case FilterLines(g) => 1 + Height(g)
    case Reduce(g, _) => 1 + Height(g)
    case Memoized(m) => 1 + m.height
  }

  /** The tree was put together from existing parts, so it is finite. */
  ghost predicate Built(f: FunctionFile)
    decreases Height(f)
  {
    match f
    case Base(_) => true
    case Composed(a, b) => Built(a) && Built(b)
    case MapLines(g) => Built(g)
    case FilterLines(g) => Built(g)
    case Reduce(g, _) => Built(g)
    case Memoized(m) => Height(m.inner) <= m.height && Built(m.inner)
  }

  /** The function that the tree stands for when nothing is memoised. */
  ghost function Denote(f: FunctionFile, input: Bytes): Result<Bytes>
    requires Built(f)
    decreases Height(f), 0, 0
  {
    match f
    case Base(g) => g(input)
    case Composed(a, b) => (match Denote(a, input) case Ok(v) => Denote(b, v) case Err(e) => Err(e))
    case MapLines(g) => DenoteMap(g, InputLines(input), |InputLines(input)|)
    case FilterLines(g) => DenoteFilter(g, InputLines(input), |InputLines(input)|)
    case Reduce(g, initial) => DenoteReduce(g, initial, InputLines(input), |InputLines(input)|)
    case Memoized(m) => Denote(m.inner, input)
  }

  ghost function DenoteMap(g: FunctionFile, lines: seq<Bytes>, n: nat): Result<Bytes>
    requires Built(g) && n <= |lines|
    decreases Height(g), 1, n
  {
    if n == 0 then Ok([])
    else match DenoteMap(g, lines, n - 1)
      case Err(e) => Err(e)
      case Ok(done) =>
        match Denote(g, lines[n - 1])
        case Err(e) => Err(e)
        case Ok(v) => Ok(done + v + [NEWLINE])
  }

  ghost function DenoteFilter(g: FunctionFile, lines: seq<Bytes>, n: nat): Result<Bytes>
    requires Built(g) && n <= |lines|
    decreases Height(g), 1, n
  {
    if n == 0 then Ok([])
    else match DenoteFilter(g, lines, n - 1)
      case Err(e) => Err(e)
      case Ok(done) =>
        match Denote(g, lines[n - 1])
        case Err(e) => Err(e)
        case Ok(v) => Ok(if v == TRUE then done + lines[n - 1] + [NEWLINE] else done)
  }

  ghost function DenoteReduce(g: FunctionFile, initial: Bytes, lines: seq<Bytes>, n: nat): Result<Bytes>
    requires Built(g) && n <= |lines|
    decreases Height(g), 1, n
  {
    if n == 0 then Ok(initial)
    else match DenoteReduce(g, initial, lines, n - 1)
      case Err(e) => Err(e)
      case Ok(acc) => Denote(g, acc + [NEWLINE] + lines[n - 1])
  }

  lemma {:induction false} MapStops(g: FunctionFile, lines: seq<Bytes>, n: nat, e: string)
    requires Built(g) && n <= |lines| && DenoteMap(g, lines, n) == Err(e)
    ensures DenoteMap(g, lines, |lines|) == Err(e)
    decreases |lines| - n
  {
    if n < |lines| {
      MapStops(g, lines, n + 1, e);
    }
  }

  lemma {:induction false} FilterStops(g: FunctionFile, lines: seq<Bytes>, n: nat, e: string)
    requires Built(g) && n <= |lines| && DenoteFilter(g, lines, n) == Err(e)
    ensures DenoteFilter(g, lines, |lines|) == Err(e)
    decreases |lines| - n
  {
    if n < |lines| {
      FilterStops(g, lines, n + 1, e);
    }
  }

  lemma {:induction false} ReduceStops(g: FunctionFile, initial: Bytes, lines: seq<Bytes>, n: nat, e: string)
    requires Built(g) && n <= |lines| && DenoteReduce(g, initial, lines, n) == Err(e)
    ensures DenoteReduce(g, initial, lines, |lines|) == Err(e)
    decreases |lines| - n
  {
    if n < |lines| {
      ReduceStops(g, initial, lines, n + 1, e);
    }
  }

  /** Denote as a function value. */
  ghost function Meaning(f: FunctionFile): ByteFunction
    requires Built(f)
  {
    x => Denote(f, x)
  }

  lemma {:induction false} MapMeans(g: FunctionFile, lines: seq<Bytes>, n: nat)
    requires Built(g) && n <= |lines|
    ensures DenoteMap(g, lines, n) == MapFirst(Meaning(g), lines, n)
  {
    if n > 0 {
      MapMeans(g, lines, n - 1);
    }
  }

  lemma {:induction false} FilterMeans(g: FunctionFile, lines: seq<Bytes>, n: nat)
    requires Built(g) && n <= |lines|
    ensures DenoteFilter(g, lines, n) == FilterFirst(Meaning(g), lines, n)
  {
    if n > 0 {
      FilterMeans(g, lines, n - 1);
    }
  }

  lemma MapNodeMeans(g: FunctionFile, input: Bytes)
    requires Built(g) && Built(MapLines(g))
    ensures Denote(MapLines(g), input) == MapText(Meaning(g))(input)
  {
    MapMeans(g, InputLines(input), |InputLines(input)|);
  }

  lemma ComposedNodeMeans(f: FunctionFile, g: FunctionFile, input: Bytes)
    requires Built(f) && Built(g) && Built(Composed(f, g))
    ensures Denote(Composed(f, g), input) == Compose(Meaning(f), Meaning(g))(input)
  {
  }

  /** Two maps in a row, as nodes of a tree, denote one map of the composition, on every input on whose lines
      the first function gives single lines of text. */
  lemma MapNodesFuse(f: FunctionFile, g: FunctionFile, input: Bytes)
    requires Built(f) && Built(g) && Built(MapLines(f)) && Built(MapLines(g)) && Built(Composed(f, g))
    requires Built(Composed(MapLines(f), MapLines(g))) && Built(MapLines(Composed(f, g)))
    requires GivesLines(Meaning(f), InputLines(input))
    ensures
      var twice, once := Denote(Composed(MapLines(f), MapLines(g)), input), Denote(MapLines(Composed(f, g)), input);
      && (twice.Ok? <==> once.Ok?)
      && (twice.Ok? ==> twice == once)
      && (Denote(MapLines(f), input).Ok? ==> twice == once)
  {
    MapNodeMeans(f, input);
    MapNodeMeans(Composed(f, g), input);
    forall x
      ensures Meaning(Composed(f, g))(x) == Compose(Meaning(f), Meaning(g))(x)
    {
      ComposedNodeMeans(f, g, x);
    }
    SameMap(Meaning(Composed(f, g)), Compose(Meaning(f), Meaning(g)), InputLines(input), |InputLines(input)|);
    MapFusion(Meaning(f), Meaning(g), input);
    TwoMapsMean(f, g, input);
  }

  lemma TwoMapsMean(f: FunctionFile, g: FunctionFile, input: Bytes)
    requires Built(f) && Built(g) && Built(MapLines(f)) && Built(MapLines(g)) && Built(Composed(MapLines(f), MapLines(g)))
    ensures Denote(Composed(MapLines(f), MapLines(g)), input) == Compose(MapText(Meaning(f)), MapText(Meaning(g)))(input)
  {
    MapNodeMeans(f, input);
    var mid := Denote(MapLines(f), input);
    if mid.Ok? {
      MapNodeMeans(g, mid.value);
    }
  }

  lemma {:induction false} SameMap(f: ByteFunction, g: ByteFunction, lines: seq<Bytes>, n: nat)
    requires n <= |lines| && forall x :: f(x) == g(x)
    ensures MapFirst(f, lines, n) == MapFirst(g, lines, n)
  {
    if n > 0 {
      SameMap(f, g, lines, n - 1);
    }
  }

  lemma MapOfOne(g: FunctionFile, line: Bytes)
    requires Built(g)
    ensures DenoteMap(g, [line], 1) == match Denote(g, line)
      case Ok(v) => Ok(v + [10])
      case Err(e) => Err(e)
  {
    assert DenoteMap(g, [line], 0) == Ok([]);
    var r := Denote(g, line);
    if r.Ok? {
      assert [] + r.value + [NEWLINE] == r.value + [10];
    }
  }

  /** An input without a newline is one line for every kind of node. Map adds the newline. */
  lemma MapOfOpenLine(g: FunctionFile, rest: Bytes)
    requires Built(g) && Built(MapLines(g)) && Utf8(rest) && rest != [] && NEWLINE !in rest
    ensures Denote(MapLines(g), rest) == match Denote(g, rest)
      case Ok(v) => Ok(v + [10])
      case Err(e) => Err(e)
  {
    OneOpenLine(rest);
    MapOfOne(g, rest);
  }

  lemma FilterOfOne(g: FunctionFile, line: Bytes)
    requires Built(g)
    ensures DenoteFilter(g, [line], 1) == match Denote(g, line)
      case Ok(v) => Ok(if v == [116, 114, 117, 101] then line + [10] else [])
      case Err(e) => Err(e)
  {
    assert DenoteFilter(g, [line], 0) == Ok([]);
    assert [] + line + [NEWLINE] == line + [10];
  }

  /** Filter keeps the line for the answer true, and nothing for any other. */
  lemma FilterOfOpenLine(g: FunctionFile, rest: Bytes)
    requires Built(g) && Built(FilterLines(g)) && Utf8(rest) && rest != [] && NEWLINE !in rest
    ensures Denote(FilterLines(g), rest) == match Denote(g, rest)
      case Ok(v) => Ok(if v == [116, 114, 117, 101] then rest + [10] else [])
      case Err(e) => Err(e)
  {
    OneOpenLine(rest);
    FilterOfOne(g, rest);
  }

  /** Reduce puts the initial value before the line. */
  lemma ReduceOfOpenLine(g: FunctionFile, initial: Bytes, rest: Bytes)
    requires Built(g) && Built(Reduce(g, initial)) && Utf8(rest) && rest != [] && NEWLINE !in rest
    ensures Denote(Reduce(g, initial), rest) == Denote(g, initial + [10] + rest)
  {
    OneOpenLine(rest);
    assert DenoteReduce(g, initial, [rest], 0) == Ok(initial);
  }

  /** Reduce folds from the first line on: with one more line it applies the function to what the lines before gave, a
      newline, and that line; without lines it gives the initial value, and an error ends it. */
  lemma ReduceFolds(g: FunctionFile, initial: Bytes, lines: seq<Bytes>, n: nat)
    requires Built(g) && n < |lines|
    ensures DenoteReduce(g, initial, lines, 0) == Ok(initial)
    ensures DenoteReduce(g, initial, lines, n).Ok? ==>
      DenoteReduce(g, initial, lines, n + 1) == Denote(g, DenoteReduce(g, initial, lines, n).value + [10] + lines[n])
    ensures DenoteReduce(g, initial, lines, n).Err? ==> DenoteReduce(g, initial, lines, n + 1) == DenoteReduce(g, initial, lines, n)
  {
  }

  lemma FilterNodeMeans(p: FunctionFile, input: Bytes)
    requires Built(p) && Built(FilterLines(p))
    ensures Denote(FilterLines(p), input) == FilterText(Meaning(p))(input)
  {
    FilterMeans(p, InputLines(input), |InputLines(input)|);
  }

  /** A filter node applied to its own output changes nothing exactly when no kept line ends in a carriage return. */
  lemma FilterNodeTwiceIff(p: FunctionFile, input: Bytes)
    requires Built(p) && Built(FilterLines(p)) && Denote(FilterLines(p), input).Ok?
    ensures
      var once := Denote(FilterLines(p), input).value;
      Denote(FilterLines(p), once) == Ok(once) <==>
        forall i :: 0 <= i < |InputLines(input)| && Denote(p, InputLines(input)[i]) == Ok(TRUE) ==>
          StripReturn(InputLines(input)[i]) == InputLines(input)[i]
  {
    FilterNodeMeans(p, input);
    FilterNodeMeans(p, Denote(FilterLines(p), input).value);
    FilterTwiceIff(Meaning(p), input);
  }

  /** The memo nodes that the tree reaches. */
  ghost function Memos(f: FunctionFile): (s: set<MemoizedFunction>)
    requires Built(f)
    ensures forall m :: m in s ==> Height(m.inner) <= m.height && Built(m.inner)
    decreases Height(f)
  {
    match f
    case Base(_) => {}
    case Composed(a, b) => Memos(a) + Memos(b)
    case MapLines(g) => Memos(g)
    case FilterLines(g) => Memos(g)
    case Reduce(g, _) => Memos(g)
    case Memoized(m) => {m} + Memos(m.inner)
  }

  /** Every cached output is the output of the function. */
  ghost predicate CachesRight(memos: set<MemoizedFunction>)
    reads memos
  {
    forall m :: m in memos ==> m.CacheRight()
  }

  /** No entry was lost or changed. */
  ghost predicate NothingLost(before: map<Bytes, Bytes>, after: map<Bytes, Bytes>) {
    forall x :: x in before ==> x in after && after[x] == before[x]
  }

  /** Evaluates the tree; whatever the caches hold and however memo nodes are shared, the answer is that
      of the tree without them. */
  method Apply(f: FunctionFile, input: Bytes) returns (r: Result<Bytes>)
    requires Built(f) && CachesRight(Memos(f))
    modifies Memos(f)
    ensures CachesRight(Memos(f))
    ensures forall m :: m in Memos(f) ==> NothingLost(old(m.cache), m.cache)
    ensures r == Denote(f, input)
    ensures f.Memoized? && r.Ok? ==> input in f.memo.cache
    decreases Height(f), 0, 0
  {
    match f
    case Base(g) => r := g(input);
    case Composed(first, second) => r := ApplyComposed(first, second, input);
    case MapLines(g) => r := ApplyMap(g, InputLines(input));
    case FilterLines(g) => r := ApplyFilter(g, InputLines(input));
    case Reduce(g, initial) => r := ApplyReduce(g, initial, InputLines(input));
    case Memoized(m) => r := ApplyMemo(m, input);
  }

  method ApplyComposed(first: FunctionFile, second: FunctionFile, input: Bytes) returns (r: Result<Bytes>)
    requires Built(first) && Built(second) && CachesRight(Memos(first) + Memos(second))
    modifies Memos(first), Memos(second)
    ensures CachesRight(Memos(first) + Memos(second))
    ensures forall m :: m in Memos(first) + Memos(second) ==> NothingLost(old(m.cache), m.cache)
    ensures r == match Denote(first, input) case Ok(v) => Denote(second, v) case Err(e) => Err(e)
    decreases (if Height(first) > Height(second) then Height(first) else Height(second)), 2, 0
  {
    ghost var memos := Memos(first) + Memos(second);
    r := ApplyWithin(first, input, memos);
    match r {
      case Err(_) => return;
      case Ok(intermediate) => r := ApplyWithin(second, intermediate, memos);
    }
  }

  /** Apply, seen by a caller that cares about more caches than those of the tree. */
  method ApplyWithin(f: FunctionFile, input: Bytes, ghost memos: set<MemoizedFunction>) returns (r: Result<Bytes>)
    requires Built(f) && Memos(f) <= memos && CachesRight(memos)
    modifies Memos(f)
    ensures CachesRight(memos)
    ensures forall m :: m in memos ==> NothingLost(old(m.cache), m.cache)
    ensures r == Denote(f, input)
    decreases Height(f), 1, 0
  {
    r := Apply(f, input);
    forall m | m in memos
      ensures m.CacheRight()
    {
      if m !in Memos(f) {
        assert old(m.CacheRight());
      }
    }
  }

  /** Answers from the cache, or computes and stores; failures are not stored. */
  method ApplyMemo(m: MemoizedFunction, input: Bytes) returns (r: Result<Bytes>)
    requires Built(Memoized(m)) && CachesRight(Memos(Memoized(m)))
    modifies Memos(Memoized(m))
    ensures CachesRight(Memos(Memoized(m)))
    ensures forall c :: c in Memos(Memoized(m)) ==> NothingLost(old(c.cache), c.cache)
    ensures r == Denote(m.inner, input)
    ensures r.Ok? ==> input in m.cache
    decreases Height(m.inner), 1, 0
  {
    if input in m.cache {
      return Ok(m.cache[input]);
    }
    r := Apply(m.inner, input);
    if r.Ok? {
      m.cache := m.cache[input := r.value];
    }
  }

  /** The caches now hold everything they held before. */
  ghost predicate Grown(before: map<MemoizedFunction, map<Bytes, Bytes>>, memos: set<MemoizedFunction>)
    reads memos
  {
    forall m :: m in memos ==> m in before && NothingLost(before[m], m.cache)
  }

  /** Apply inside a loop that started with the caches as they were before. */
  method ApplyNext(g: FunctionFile, input: Bytes, ghost before: map<MemoizedFunction, map<Bytes, Bytes>>) returns (r: Result<Bytes>)
    requires Built(g) && CachesRight(Memos(g)) && Grown(before, Memos(g))
    modifies Memos(g)
    ensures CachesRight(Memos(g)) && Grown(before, Memos(g))
    ensures r == Denote(g, input)
    decreases Height(g), 1, 0
  {
    r := Apply(g, input);
  }

  method ApplyMap(g: FunctionFile, lines: seq<Bytes>) returns (r: Result<Bytes>)
    requires Built(g) && CachesRight(Memos(g))
    modifies Memos(g)
    ensures CachesRight(Memos(g))
    ensures forall m :: m in Memos(g) ==> NothingLost(old(m.cache), m.cache)
    ensures r == DenoteMap(g, lines, |lines|)
    decreases Height(g), 3, 0
  {
    ghost var memos := Memos(g);
    ghost var before := map m | m in memos :: m.cache;
    var results: Bytes := [];
    for i := 0 to |lines|
      invariant CachesRight(memos) && Grown(before, memos)
      invariant DenoteMap(g, lines, i) == Ok(results)
    {
      var next := ApplyMapLine(g, lines, i, results, before);
      match next {
        case Err(e) =>
          MapStops(g, lines, i + 1, e);
          return Err(e);
        case Ok(v) => results := v;
      }
    }
    return Ok(results);
  }

  method ApplyMapLine(g: FunctionFile, lines: seq<Bytes>, i: nat, done: Bytes,
                   ghost before: map<MemoizedFunction, map<Bytes, Bytes>>) returns (r: Result<Bytes>)
    requires Built(g) && CachesRight(Memos(g)) && Grown(before, Memos(g))
    requires i < |lines| && DenoteMap(g, lines, i) == Ok(done)
    modifies Memos(g)
    ensures CachesRight(Memos(g)) && Grown(before, Memos(g))
    ensures r == DenoteMap(g, lines, i + 1)
    decreases Height(g), 2, 0
  {
    var lineResult := ApplyNext(g, lines[i], before);
    match lineResult
    case Err(e) => r := Err(e);
    case Ok(v) => r := Ok(done + v + [NEWLINE]);
  }

  method ApplyFilter(g: FunctionFile, lines: seq<Bytes>) returns (r: Result<Bytes>)
    requires Built(g) && CachesRight(Memos(g))
    modifies Memos(g)
    ensures CachesRight(Memos(g))
    ensures forall m :: m in Memos(g) ==> NothingLost(old(m.cache), m.cache)
    ensures r == DenoteFilter(g, lines, |lines|)
    decreases Height(g), 3, 0
  {
    ghost var memos := Memos(g);
    ghost var before := map m | m in memos :: m.cache;
    var results: Bytes := [];
    for i := 0 to |lines|
      invariant CachesRight(memos) && Grown(before, memos)
      invariant DenoteFilter(g, lines, i) == Ok(results)
    {
      var next := ApplyFilterLine(g, lines, i, results, before);
      match next {
        case Err(e) =>
          FilterStops(g, lines, i + 1, e);
          return Err(e);
        case Ok(v) => results := v;
      }
    }
    return Ok(results);
  }

  method ApplyFilterLine(g: FunctionFile, lines: seq<Bytes>, i: nat, done: Bytes,
                   ghost before: map<MemoizedFunction, map<Bytes, Bytes>>) returns (r: Result<Bytes>)
    requires Built(g) && CachesRight(Memos(g)) && Grown(before, Memos(g))
    requires i < |lines| && DenoteFilter(g, lines, i) == Ok(done)
    modifies Memos(g)
    ensures CachesRight(Memos(g)) && Grown(before, Memos(g))
    ensures r == DenoteFilter(g, lines, i + 1)
    decreases Height(g), 2, 0
  {
    var answer := ApplyNext(g, lines[i], before);
    match answer
    case Err(e) => r := Err(e);
    case Ok(v) => r := Ok(if v == TRUE then done + lines[i] + [NEWLINE] else done);
  }

  method ApplyReduce(g: FunctionFile, initial: Bytes, lines: seq<Bytes>) returns (r: Result<Bytes>)
    requires Built(g) && CachesRight(Memos(g))
    modifies Memos(g)
    ensures CachesRight(Memos(g))
    ensures forall m :: m in Memos(g) ==> NothingLost(old(m.cache), m.cache)
    ensures r == DenoteReduce(g, initial, lines, |lines|)
    decreases Height(g), 3, 0
  {
    ghost var memos := Memos(g);
    ghost var before := map m | m in memos :: m.cache;
    var accumulator: Bytes := initial;
    for i := 0 to |lines|
      invariant CachesRight(memos) && Grown(before, memos)
      invariant DenoteReduce(g, initial, lines, i) == Ok(accumulator)
    {
      var next := ApplyReduceLine(g, initial, lines, i, accumulator, before);
      match next {
        case Err(e) =>
          ReduceStops(g, initial, lines, i + 1, e);
          return Err(e);
        case Ok(v) => accumulator := v;
      }
    }
    return Ok(accumulator);
  }

  method ApplyReduceLine(g: FunctionFile, initial: Bytes, lines: seq<Bytes>, i: nat, done: Bytes,
                   ghost before: map<MemoizedFunction, map<Bytes, Bytes>>) returns (r: Result<Bytes>)
    requires Built(g) && CachesRight(Memos(g)) && Grown(before, Memos(g))
    requires i < |lines| && DenoteReduce(g, initial, lines, i) == Ok(done)
    modifies Memos(g)
    ensures CachesRight(Memos(g)) && Grown(before, Memos(g))
    ensures r == DenoteReduce(g, initial, lines, i + 1)
    decreases Height(g), 2, 0
  {
    r := ApplyNext(g, done + [NEWLINE] + lines[i], before);
  }

  // ----- the file

  /** The bytes from offset on, at most count of them, as far as there are any. */
  function Slice(data: Bytes, offset: nat, count: nat): Bytes {
    var start := Min(offset, |data|);
    data[start..Min(start + count, |data|)]
  }

  /** The input after a history of writes. */
  function LastWritten(written: seq<Bytes>): Bytes {
    if written == [] then [] else written[|written| - 1]
  }

  lemma LastWrittenIs(written: seq<Bytes>, data: Bytes)
    ensures LastWritten(written + [data]) == data && LastWritten([]) == []
  {
  }

  /** A slice has the bytes from the offset on, as many as were asked for and there are. */
  lemma SliceIs(data: Bytes, offset: nat, count: nat)
    ensures |Slice(data, offset, count)| == if offset >= |data| then 0 else Min(count, |data| - offset)
    ensures forall j :: 0 <= j < |Slice(data, offset, count)| ==> Slice(data, offset, count)[j] == data[offset + j]
  {
  }

  class FunctionFileInstance {
    const inner: FunctionFile
    var input: Bytes
    var output: Option<Bytes>
    var dirty: bool
    /** Everything written so far. */
    ghost var written: seq<Bytes>

    /** A clean file holds the output for the last input; a dirty one holds none. */
    ghost predicate Valid()
      reads this
    {
      && Built(inner)
      && input == LastWritten(written)
      && if dirty then output == None else output.Some? && Denote(inner, input) == Ok(output.value)
    }

    constructor (inner: FunctionFile)
      requires Built(inner)
      ensures Valid() && this.inner == inner && written == [] && dirty
    {
      this.inner := inner;
      input, output, dirty := [], None, true;
      written := [];
    }

    /** Sets the input and forgets the output; the answer is the length as a 32-bit number. */
    method Write(data: Bytes) returns (r: nat)
      requires Valid()
      modifies this
      ensures Valid() && written == old(written) + [data] && dirty && input == data
      ensures r == |data| % 0x1_0000_0000
    {
      input := data;
      dirty := true;
      output := None;
      written := written + [data];
      r := |data| % 0x1_0000_0000;
    }

    /** Answers with the slice of the unmemoised function of the last input, or with its error, in which
        case the file stays dirty. */
    method Read(offset: nat, count: nat) returns (r: Result<Bytes>)
      requires Valid() && CachesRight(Memos(inner))
      modifies this, Memos(inner)
      ensures Valid() && CachesRight(Memos(inner))
      ensures forall m :: m in Memos(inner) ==> NothingLost(old(m.cache), m.cache)
      ensures written == old(written)
      ensures match Denote(inner, LastWritten(written))
              case Ok(v) => r == Ok(Slice(v, offset, count)) && !dirty && output == Some(v)
              case Err(e) => r == Err(e) && dirty
    {
      if dirty {
        var result := Apply(inner, input);
        match result {
          case Err(e) => return Err(e);
          case Ok(v) =>
            output := Some(v);
            dirty := false;
        }
      }
      match output
      case None => return Ok([]);
      case Some(data) => return Ok(Slice(data, offset, count));
    }
  }
}
