/** Applying byte functions line by line: map and filter as loops, what two of them in a row
    amount to, and when that differs from what one would expect. */
module LineFunctions {
  import opened ByteStrings
  import opened Text

  datatype Result<T> = Ok(value: T) | Err(error: string)

  type ByteFunction = Bytes -> Result<Bytes>

  function Compose(first: ByteFunction, second: ByteFunction): ByteFunction {
    input => match first(input) case Ok(v) => second(v) case Err(e) => Err(e)
  }

  /** The lines that line-wise functions see of an input. */
  function InputLines(input: Bytes): seq<Bytes> {
    Lines(Lossy(input))
  }

  /** Valid text without a newline is one line. */
  lemma OneOpenLine(rest: Bytes)
    requires Utf8(rest) && rest != [] && NEWLINE !in rest
    ensures InputLines(rest) == [rest]
  {
    LossyOfText(rest);
    LinesOfOpenText([], rest);
    assert Unlines([]) + rest == rest && Stripped([]) + [rest] == [rest];
  }

  // ----- map

  /** The output for the first n lines; the first failure ends it. */
  function MapFirst(f: ByteFunction, lines: seq<Bytes>, n: nat): Result<Bytes>
    requires n <= |lines|
  {
    if n == 0 then Ok([])
    else match MapFirst(f, lines, n - 1)
      case Err(e) => Err(e)
      case Ok(done) =>
        match f(lines[n - 1])
        case Err(e) => Err(e)
        case Ok(v) => Ok(done + v + [NEWLINE])
  }

  function MapText(f: ByteFunction): ByteFunction {
    input => MapFirst(f, InputLines(input), |InputLines(input)|)
  }

  /** The first n lines under a function that succeeds on them. */
  ghost function Outputs(f: ByteFunction, lines: seq<Bytes>, n: nat): (r: seq<Bytes>)
    requires n <= |lines| && MapFirst(f, lines, n).Ok?
    ensures |r| == n
    ensures forall i :: 0 <= i < n ==> f(lines[i]) == Ok(r[i])
  {
    if n == 0 then [] else Outputs(f, lines, n - 1) + [f(lines[n - 1]).value]
  }

  lemma {:induction false} MapIsUnlines(f: ByteFunction, lines: seq<Bytes>, n: nat)
    requires n <= |lines| && MapFirst(f, lines, n).Ok?
    ensures MapFirst(f, lines, n).value == Unlines(Outputs(f, lines, n))
  {
    if n > 0 {
      MapIsUnlines(f, lines, n - 1);
      UnlinesAppend(Outputs(f, lines, n - 1), f(lines[n - 1]).value);
    }
  }

  /** Map fails exactly when the function fails on some line. */
  lemma {:induction false} MapFailsIff(f: ByteFunction, lines: seq<Bytes>, n: nat)
    requires n <= |lines|
    ensures MapFirst(f, lines, n).Err? <==> exists i :: 0 <= i < n && f(lines[i]).Err?
  {
    if n > 0 {
      MapFailsIff(f, lines, n - 1);
    }
  }

  /** And then with the error of the first such line. */
  lemma {:induction false} MapFirstError(f: ByteFunction, lines: seq<Bytes>, n: nat, i: nat)
    requires i < n <= |lines| && f(lines[i]).Err? && forall j :: 0 <= j < i ==> f(lines[j]).Ok?
    ensures MapFirst(f, lines, n) == Err(f(lines[i]).error)
  {
    if i < n - 1 {
      MapFirstError(f, lines, n - 1, i);
    } else {
      MapFailsIff(f, lines, n - 1);
    }
  }

  /** A function whose outputs are single lines of text. */
  ghost predicate GivesLines(f: ByteFunction, lines: seq<Bytes>) {
    forall i :: 0 <= i < |lines| && f(lines[i]).Ok? ==>
      Utf8(f(lines[i]).value) && NEWLINE !in f(lines[i]).value && StripReturn(f(lines[i]).value) == f(lines[i]).value
  }

  lemma {:induction false} MapOfOutputs(f: ByteFunction, g: ByteFunction, lines: seq<Bytes>, outs: seq<Bytes>, n: nat)
    requires n <= |lines| == |outs| && forall i :: 0 <= i < |lines| ==> f(lines[i]) == Ok(outs[i])
    ensures MapFirst(g, outs, n) == MapFirst(Compose(f, g), lines, n)
  {
    if n > 0 {
      MapOfOutputs(f, g, lines, outs, n - 1);
    }
  }

  /** What the first map wrote is read back as exactly the lines it wrote. */
  lemma MapOutputLines(f: ByteFunction, input: Bytes)
    requires MapText(f)(input).Ok? && GivesLines(f, InputLines(input))
    ensures InputLines(MapText(f)(input).value) == Outputs(f, InputLines(input), |InputLines(input)|)
  {
    var lines := InputLines(input);
    var outs := Outputs(f, lines, |lines|);
    MapIsUnlines(f, lines, |lines|);
    UnlinesIsText(outs);
    LossyOfText(Unlines(outs));
    RoundTripIff(outs);
  }

  /** Mapping f and then g over any input is mapping their composition, when f gives single lines of
      text: the outputs are equal, both fail or both succeed, and the errors agree unless f is to blame. */
  lemma MapFusion(f: ByteFunction, g: ByteFunction, input: Bytes)
    requires GivesLines(f, InputLines(input))
    ensures
      var twice, once := Compose(MapText(f), MapText(g))(input), MapText(Compose(f, g))(input);
      && (twice.Ok? <==> once.Ok?)
      && (twice.Ok? ==> twice == once)
      && (MapText(f)(input).Ok? ==> twice == once)
  {
    var lines := InputLines(input);
    if MapText(f)(input).Ok? {
      MapOutputLines(f, input);
      MapOfOutputs(f, g, lines, Outputs(f, lines, |lines|), |lines|);
    } else {
      MapFailsIff(f, lines, |lines|);
      var i :| 0 <= i < |lines| && f(lines[i]).Err?;
      assert Compose(f, g)(lines[i]).Err?;
      MapFailsIff(Compose(f, g), lines, |lines|);
    }
  }

  // ----- filter

  const TRUE: Bytes := [116, 114, 117, 101]

  function FilterFirst(p: ByteFunction, lines: seq<Bytes>, n: nat): Result<Bytes>
    requires n <= |lines|
  {
    if n == 0 then Ok([])
    else match FilterFirst(p, lines, n - 1)
      case Err(e) => Err(e)
      case Ok(done) =>
        match p(lines[n - 1])
        case Err(e) => Err(e)
        case Ok(v) => Ok(if v == TRUE then done + lines[n - 1] + [NEWLINE] else done)
  }

  function FilterText(p: ByteFunction): ByteFunction {
    input => FilterFirst(p, InputLines(input), |InputLines(input)|)
  }

  /** The lines among the first n that the predicate accepts. */
  function Kept(p: ByteFunction, lines: seq<Bytes>, n: nat): seq<Bytes>
    requires n <= |lines|
  {
    if n == 0 then []
    else if p(lines[n - 1]) == Ok(TRUE) then Kept(p, lines, n - 1) + [lines[n - 1]]
    else Kept(p, lines, n - 1)
  }

  /** Filter fails exactly when the predicate fails on some line, with the error of the first such line. */
  lemma {:induction false} FilterFailsIff(p: ByteFunction, lines: seq<Bytes>, n: nat)
    requires n <= |lines|
    ensures FilterFirst(p, lines, n).Err? <==> exists i :: 0 <= i < n && p(lines[i]).Err?
  {
    if n > 0 {
      FilterFailsIff(p, lines, n - 1);
    }
  }

  lemma {:induction false} FilterFirstError(p: ByteFunction, lines: seq<Bytes>, n: nat, i: nat)
    requires i < n <= |lines| && p(lines[i]).Err? && forall j :: 0 <= j < i ==> p(lines[j]).Ok?
    ensures FilterFirst(p, lines, n) == Err(p(lines[i]).error)
  {
    if i < n - 1 {
      FilterFirstError(p, lines, n - 1, i);
    } else {
      FilterFailsIff(p, lines, n - 1);
    }
  }

  lemma {:induction false} FilterIsUnlines(p: ByteFunction, lines: seq<Bytes>, n: nat)
    requires n <= |lines| && FilterFirst(p, lines, n).Ok?
    ensures FilterFirst(p, lines, n).value == Unlines(Kept(p, lines, n))
  {
    if n > 0 {
      FilterIsUnlines(p, lines, n - 1);
      UnlinesAppend(Kept(p, lines, n - 1), lines[n - 1]);
    }
  }

  lemma {:induction false} KeptAreLines(p: ByteFunction, lines: seq<Bytes>, n: nat)
    requires n <= |lines|
    ensures forall i :: 0 <= i < |Kept(p, lines, n)| ==> Kept(p, lines, n)[i] in lines && p(Kept(p, lines, n)[i]) == Ok(TRUE)
  {
    if n > 0 {
      KeptAreLines(p, lines, n - 1);
    }
  }

  lemma {:induction false} FilterKeepsAll(p: ByteFunction, lines: seq<Bytes>, n: nat)
    requires n <= |lines| && forall i :: 0 <= i < n ==> p(lines[i]) == Ok(TRUE)
    ensures FilterFirst(p, lines, n) == Ok(Unlines(lines[..n]))
  {
    if n > 0 {
      FilterKeepsAll(p, lines, n - 1);
      UnlinesAppend(lines[..n - 1], lines[n - 1]);
      assert lines[..n] == lines[..n - 1] + [lines[n - 1]];
    }
  }

  lemma {:induction false} FilterShrinks(p: ByteFunction, lines: seq<Bytes>, n: nat)
    requires n <= |lines| && FilterFirst(p, lines, n).Ok?
    ensures |FilterFirst(p, lines, n).value| <= |Unlines(lines[..n])|
  {
    if n > 0 {
      FilterShrinks(p, lines, n - 1);
      UnlinesAppend(lines[..n - 1], lines[n - 1]);
      assert lines[..n] == lines[..n - 1] + [lines[n - 1]];
    }
  }

  lemma {:induction false} StrippedIsShorter(lines: seq<Bytes>)
    ensures |Unlines(Stripped(lines))| <= |Unlines(lines)|
    ensures (exists i :: 0 <= i < |lines| && StripReturn(lines[i]) != lines[i]) ==> |Unlines(Stripped(lines))| < |Unlines(lines)|
    decreases |lines|
  {
    if lines != [] {
      StrippedIsShorter(lines[1..]);
      assert Stripped(lines)[1..] == Stripped(lines[1..]);
      if i :| 0 <= i < |lines| && StripReturn(lines[i]) != lines[i] && StripReturn(lines[0]) == lines[0] {
        assert lines[1..][i - 1] == lines[i];
      }
    }
  }

  /** What a filter wrote is read back as the kept lines, each without a last carriage return. */
  lemma FilterOutputLines(p: ByteFunction, input: Bytes)
    requires FilterText(p)(input).Ok?
    ensures
      var kept := Kept(p, InputLines(input), |InputLines(input)|);
      && FilterText(p)(input).value == Unlines(kept)
      && InputLines(FilterText(p)(input).value) == Stripped(kept)
      && forall i :: 0 <= i < |kept| ==> p(kept[i]) == Ok(TRUE)
  {
    var lines := InputLines(input);
    var kept := Kept(p, lines, |lines|);
    FilterIsUnlines(p, lines, |lines|);
    KeptAreLines(p, lines, |lines|);
    LossyIsText(input);
    LinesAreText(Lossy(input));
    LinesHaveNoNewlines(Lossy(input));
    UnlinesIsText(kept);
    LossyOfText(Unlines(kept));
    LinesOfUnlines(kept);
  }

  ghost predicate NoReturns(lines: seq<Bytes>) {
    forall i :: 0 <= i < |lines| ==> StripReturn(lines[i]) == lines[i]
  }

  lemma FilterAgain(p: ByteFunction, kept: seq<Bytes>)
    requires forall i :: 0 <= i < |kept| ==> p(kept[i]) == Ok(TRUE)
    ensures FilterFirst(p, Stripped(kept), |kept|) == Ok(Unlines(kept)) <==> NoReturns(kept)
  {
    if NoReturns(kept) {
      assert Stripped(kept) == kept;
      FilterKeepsAll(p, kept, |kept|);
      assert kept[..|kept|] == kept;
    } else {
      FilterDiffers(p, kept);
    }
  }

  lemma FilterDiffers(p: ByteFunction, kept: seq<Bytes>)
    requires !NoReturns(kept)
    ensures FilterFirst(p, Stripped(kept), |kept|) != Ok(Unlines(kept))
  {
    var again := Stripped(kept);
    if FilterFirst(p, again, |kept|).Ok? {
      StrippedIsShorter(kept);
      FilterShrinks(p, again, |kept|);
      assert again[..|kept|] == again;
    }
  }

  /** Filtering a second time changes nothing exactly when no kept line ends in a carriage return. */
  lemma FilterTwiceIff(p: ByteFunction, input: Bytes)
    requires FilterText(p)(input).Ok?
    ensures
      var lines := InputLines(input);
      FilterText(p)(FilterText(p)(input).value) == FilterText(p)(input) <==>
        forall i :: 0 <= i < |lines| && p(lines[i]) == Ok(TRUE) ==> StripReturn(lines[i]) == lines[i]
  {
    var lines := InputLines(input);
    FilterOutputLines(p, input);
    FilterAgain(p, Kept(p, lines, |lines|));
    KeptExactly(p, lines, |lines|);
  }

  lemma {:induction false} KeptExactly(p: ByteFunction, lines: seq<Bytes>, n: nat)
    requires n <= |lines|
    ensures forall line :: line in Kept(p, lines, n) <==> p(line) == Ok(TRUE) && line in lines[..n]
    ensures (forall i :: 0 <= i < |Kept(p, lines, n)| ==> StripReturn(Kept(p, lines, n)[i]) == Kept(p, lines, n)[i]) <==>
      forall i :: 0 <= i < n && p(lines[i]) == Ok(TRUE) ==> StripReturn(lines[i]) == lines[i]
  {
    if n > 0 {
      KeptExactly(p, lines, n - 1);
      assert lines[..n] == lines[..n - 1] + [lines[n - 1]];
    }
  }

  /** Filtering twice is not always filtering once: any line that ends in two carriage returns, accepted by
      the filter, loses one of them each time. */
  lemma FilterTwiceDiffers(p: ByteFunction, line: Bytes)
    requires NEWLINE !in line && (forall i :: 0 <= i < |line| ==> line[i] < 128) && forall l :: p(l) == Ok(TRUE)
    ensures FilterText(p)(line + [RETURN] + [RETURN] + [NEWLINE]) == Ok(line + [RETURN] + [NEWLINE])
    ensures FilterText(p)(line + [RETURN] + [NEWLINE]) == Ok(line + [NEWLINE])
  {
    LosesReturn(p, line + [RETURN]);
    LosesReturn(p, line);
  }

  lemma LosesReturn(p: ByteFunction, line: Bytes)
    requires NEWLINE !in line && (forall i :: 0 <= i < |line| ==> line[i] < 128) && forall l :: p(l) == Ok(TRUE)
    ensures FilterText(p)(line + [RETURN] + [NEWLINE]) == Ok(line + [NEWLINE])
  {
    var longer := line + [RETURN];
    Ascii(longer);
    assert StripReturn(longer) == line;
    OneLine(p, longer);
  }

  lemma {:induction false} Ascii(b: Bytes)
    requires forall i :: 0 <= i < |b| ==> b[i] < 128
    ensures Utf8(b)
    decreases |b|
  {
    if b != [] {
      Ascii(b[1..]);
    }
  }

  lemma OneLine(p: ByteFunction, line: Bytes)
    requires NEWLINE !in line && Utf8(line) && forall l :: p(l) == Ok(TRUE)
    ensures FilterText(p)(line + [NEWLINE]) == Ok(StripReturn(line) + [NEWLINE])
  {
    var lines := [line];
    UnlinesIsText(lines);
    LossyOfText(Unlines(lines));
    LinesOfUnlines(lines);
    JoinOne(line);
    JoinOne(StripReturn(line));
    var again := Stripped(lines);
    assert again == [StripReturn(line)];
    FilterKeepsAll(p, again, 1);
    assert again[..1] == again;
  }

  lemma JoinOne(line: Bytes)
    ensures Unlines([line]) == line + [NEWLINE]
  {
    assert Unlines([line][1..]) == [];
  }
}
