/** Byte strings as text: UTF-8, the lossy decoding, and splitting into lines. */
module Text {
  import opened ByteStrings

  const NEWLINE: Byte := 10
  const RETURN: Byte := 13

  // ----- UTF-8

  /** What a decoder reads at the start of a byte string: so many bytes, which are one character or
      the longest ill-formed start of one. */
  datatype Unit = Unit(size: nat, valid: bool)

  predicate Continuation(b: Bytes, i: nat) {
    i < |b| && 128 <= b[i] < 192
  }

  /** The second byte fits the first one; some first bytes narrow its range. */
  predicate SecondFits(b: Bytes) {
    && Continuation(b, 1)
    && (b[0] == 224 ==> b[1] >= 160) && (b[0] == 237 ==> b[1] < 160)
    && (b[0] == 240 ==> b[1] >= 144) && (b[0] == 244 ==> b[1] < 144)
  }

  /** The well-formed byte sequences of section 4 of RFC 3629. */
  function FirstUnit(b: Bytes): (u: Unit)
    requires b != []
    ensures 0 < u.size <= |b|
  {
    if b[0] < 128 then Unit(1, true)
    else if b[0] < 194 || b[0] > 244 || !SecondFits(b) then Unit(1, false)
    else if b[0] < 224 then Unit(2, true)
    else if !Continuation(b, 2) then Unit(2, false)
    else if b[0] < 240 then Unit(3, true)
    else if !Continuation(b, 3) then Unit(3, false)
    else Unit(4, true)
  }

  predicate Utf8(b: Bytes) {
    b == [] || (FirstUnit(b).valid && Utf8(b[FirstUnit(b).size..]))
  }

  /** U+FFFD. */
  const REPLACEMENT: Bytes := [239, 191, 189]

  /** Text with every ill-formed unit replaced. */
  function Lossy(b: Bytes): Bytes {
    if b == [] then []
    else (if FirstUnit(b).valid then b[..FirstUnit(b).size] else REPLACEMENT) + Lossy(b[FirstUnit(b).size..])
  }

  /** A unit is recognised by its own bytes when it is a character. */
  lemma UnitLocal(a: Bytes, b: Bytes)
    requires a != [] && FirstUnit(a).valid
    ensures FirstUnit(a + b) == FirstUnit(a)
  {
  }

  lemma {:induction false} Utf8Concat(a: Bytes, b: Bytes)
    requires Utf8(a) && Utf8(b)
    ensures Utf8(a + b)
  {
    if a == [] {
      assert a + b == b;
    } else {
      var n := FirstUnit(a).size;
      UnitLocal(a, b);
      Utf8Concat(a[n..], b);
      assert (a + b)[n..] == a[n..] + b;
    }
  }

  /** Decoding leaves text as it is. */
  lemma {:induction false} LossyOfText(b: Bytes)
    requires Utf8(b)
    ensures Lossy(b) == b
  {
    if b != [] {
      var n := FirstUnit(b).size;
      LossyOfText(b[n..]);
      assert b == b[..n] + b[n..];
    }
  }

  lemma ValidUnitIsText(b: Bytes)
    requires b != [] && FirstUnit(b).valid
    ensures Utf8(b[..FirstUnit(b).size])
  {
    var n := FirstUnit(b).size;
    var u := b[..n];
    assert FirstUnit(u) == FirstUnit(b);
    assert u[n..] == [];
  }

  /** Decoding always gives text. */
  lemma {:induction false} LossyIsText(b: Bytes)
    ensures Utf8(Lossy(b))
  {
    if b != [] {
      var n := FirstUnit(b).size;
      LossyIsText(b[n..]);
      if FirstUnit(b).valid {
        ValidUnitIsText(b);
        Utf8Concat(b[..n], Lossy(b[n..]));
      } else {
        assert FirstUnit(REPLACEMENT) == Unit(3, true) && REPLACEMENT[3..] == [];
        Utf8Concat(REPLACEMENT, Lossy(b[n..]));
      }
    }
  }

  lemma LossyAfterUnit(a: Bytes, b: Bytes)
    requires a != [] && FirstUnit(a).valid
    ensures var n := FirstUnit(a).size; Lossy(a + b) == a[..n] + Lossy(a[n..] + b)
  {
    var n := FirstUnit(a).size;
    UnitLocal(a, b);
    assert (a + b)[..n] == a[..n] && (a + b)[n..] == a[n..] + b;
  }

  lemma Regrouped(a: Bytes, b: Bytes, c: Bytes, d: Bytes)
    ensures a + (b + c + d) == (a + b) + c + d
  {
  }

  /** Valid text stays, and the first ill-formed unit after it becomes one replacement character. */
  lemma {:induction false} LossyOfIllFormed(a: Bytes, b: Bytes, tail: Bytes)
    requires Utf8(a) && b != [] && !FirstUnit(b).valid && tail == Lossy(b[FirstUnit(b).size..])
    ensures Lossy(a + b) == a + [239, 191, 189] + tail
    decreases |a|
  {
    if a == [] {
      assert a + b == b && a + [239, 191, 189] + tail == REPLACEMENT + tail;
    } else {
      var n := FirstUnit(a).size;
      LossyAfterUnit(a, b);
      LossyOfIllFormed(a[n..], b, tail);
      Regrouped(a[..n], a[n..], [239, 191, 189], tail);
      assert a == a[..n] + a[n..];
    }
  }

  // ----- text as encoded code points

  predicate Scalar(c: nat) {
    c < 0xD800 || 0xE000 <= c < 0x11_0000
  }

  /** UTF-8 as section 3 of RFC 3629 encodes a code point. */
  function Encode(c: nat): Bytes
    requires Scalar(c)
  {
    if c < 0x80 then [c]
    else if c < 0x800 then [192 + c / 64, 128 + c % 64]
    else if c < 0x1_0000 then [224 + c / 4096, 128 + c / 64 % 64, 128 + c % 64]
    else [240 + c / 262144, 128 + c / 4096 % 64, 128 + c / 64 % 64, 128 + c % 64]
  }

  lemma TwoAreUnit(x: Byte, y: Byte, rest: Bytes)
    requires 194 <= x < 224 && 128 <= y < 192
    ensures FirstUnit([x, y] + rest) == Unit(2, true)
  {
  }

  lemma ThreeAreUnit(x: Byte, y: Byte, z: Byte, rest: Bytes)
    requires 224 <= x < 240 && 128 <= y < 192 && 128 <= z < 192
    requires (x == 224 ==> y >= 160) && (x == 237 ==> y < 160)
    ensures FirstUnit([x, y, z] + rest) == Unit(3, true)
  {
  }

  lemma FourAreUnit(x: Byte, y: Byte, z: Byte, t: Byte, rest: Bytes)
    requires 240 <= x < 245 && 128 <= y < 192 && 128 <= z < 192 && 128 <= t < 192
    requires (x == 240 ==> y >= 144) && (x == 244 ==> y < 144)
    ensures FirstUnit([x, y, z, t] + rest) == Unit(4, true)
  {
  }

  lemma EncodeIsUnit(c: nat, rest: Bytes)
    requires Scalar(c)
    ensures FirstUnit(Encode(c) + rest) == Unit(|Encode(c)|, true)
  {
    if c < 0x80 {
    } else if c < 0x800 {
      TwoAreUnit(192 + c / 64, 128 + c % 64, rest);
    } else if c < 0x1_0000 {
      ThreeAreUnit(224 + c / 4096, 128 + c / 64 % 64, 128 + c % 64, rest);
    } else {
      FourAreUnit(240 + c / 262144, 128 + c / 4096 % 64, 128 + c / 64 % 64, 128 + c % 64, rest);
    }
  }

  lemma TwoBytes(x: int, y: int) returns (c: nat)
    requires 194 <= x < 224 && 128 <= y < 192
    ensures Scalar(c) && Encode(c) == [x, y]
  {
    c := (x - 192) * 64 + (y - 128);
    assert c / 64 == x - 192 && c % 64 == y - 128;
  }

  lemma ThreeBytes(x: int, y: int, z: int) returns (c: nat)
    requires 224 <= x < 240 && 128 <= y < 192 && 128 <= z < 192
    requires (x == 224 ==> y >= 160) && (x == 237 ==> y < 160)
    ensures Scalar(c) && Encode(c) == [x, y, z]
  {
    var u := (x - 224) * 64 + (y - 128);
    c := u * 64 + (z - 128);
    assert c / 64 == u && c % 64 == z - 128;
    assert u % 64 == y - 128 && c / 4096 == x - 224;
  }

  lemma FourBytes(x: int, y: int, z: int, t: int) returns (c: nat)
    requires 240 <= x < 245 && 128 <= y < 192 && 128 <= z < 192 && 128 <= t < 192
    requires (x == 240 ==> y >= 144) && (x == 244 ==> y < 144)
    ensures Scalar(c) && Encode(c) == [x, y, z, t]
  {
    var u := (x - 240) * 64 + (y - 128);
    var v := u * 64 + (z - 128);
    c := v * 64 + (t - 128);
    assert c / 64 == v && c % 64 == t - 128;
    assert v % 64 == z - 128 && c / 4096 == u;
    assert u % 64 == y - 128 && c / 262144 == x - 240;
  }

  lemma UnitIsEncode(b: Bytes) returns (c: nat)
    requires b != [] && FirstUnit(b).valid
    ensures Scalar(c) && b[..FirstUnit(b).size] == Encode(c)
  {
    if b[0] < 128 {
      c := b[0];
    } else if b[0] < 224 {
      c := TwoBytes(b[0], b[1]);
    } else if b[0] < 240 {
      c := ThreeBytes(b[0], b[1], b[2]);
    } else {
      c := FourBytes(b[0], b[1], b[2], b[3]);
    }
  }

  ghost predicate Scalars(cs: seq<nat>) {
    forall i :: 0 <= i < |cs| ==> Scalar(cs[i])
  }

  function EncodeAll(cs: seq<nat>): Bytes
    requires Scalars(cs)
  {
    if cs == [] then [] else Encode(cs[0]) + EncodeAll(cs[1..])
  }

  lemma {:induction false} EncodedIsText(cs: seq<nat>)
    requires Scalars(cs)
    ensures Utf8(EncodeAll(cs))
    decreases |cs|
  {
    if cs != [] {
      EncodedIsText(cs[1..]);
      EncodeIsUnit(cs[0], EncodeAll(cs[1..]));
      var n := |Encode(cs[0])|;
      assert EncodeAll(cs)[n..] == EncodeAll(cs[1..]);
    }
  }

  lemma EncodeAllCons(c: nat, rest: seq<nat>)
    requires Scalar(c) && Scalars(rest)
    ensures Scalars([c] + rest) && EncodeAll([c] + rest) == Encode(c) + EncodeAll(rest)
  {
    assert ([c] + rest)[1..] == rest;
  }

  /** Text is exactly what encodes code points. */
  lemma {:induction false} TextIsEncoded(b: Bytes) returns (cs: seq<nat>)
    requires Utf8(b)
    ensures Scalars(cs) && EncodeAll(cs) == b
    decreases |b|
  {
    if b == [] {
      cs := [];
    } else {
      var c, n := TextStart(b);
      var rest := TextIsEncoded(b[n..]);
      cs := [c] + rest;
      EncodeAllCons(c, rest);
    }
  }

  lemma TextStart(b: Bytes) returns (c: nat, n: nat)
    requires Utf8(b) && b != []
    ensures Scalar(c) && 0 < n <= |b| && b == Encode(c) + b[n..] && Utf8(b[n..])
  {
    n := FirstUnit(b).size;
    c := UnitIsEncode(b);
    assert b == b[..n] + b[n..];
  }

  /** A newline never lies inside a character, so both sides of it are text. */
  lemma {:induction false} Utf8SplitAtNewline(a: Bytes, b: Bytes)
    requires Utf8(a + [NEWLINE] + b)
    ensures Utf8(a) && Utf8(b)
    decreases |a|
  {
    var c := a + [NEWLINE] + b;
    var n := FirstUnit(c).size;
    if a == [] {
      assert c[0] == NEWLINE && c[1..] == b;
    } else {
      UnitStopsAtNewline(a, b);
      assert c[n..] == a[n..] + [NEWLINE] + b;
      Utf8SplitAtNewline(a[n..], b);
    }
  }

  lemma UnitStopsAtNewline(a: Bytes, b: Bytes)
    requires a != [] && FirstUnit(a + [NEWLINE] + b).valid
    ensures FirstUnit(a + [NEWLINE] + b).size <= |a|
    ensures FirstUnit(a) == FirstUnit(a + [NEWLINE] + b)
  {
    var c := a + [NEWLINE] + b;
    assert c[|a|] == NEWLINE;
    assert forall i :: 0 <= i < |a| ==> c[i] == a[i];
  }

  // ----- lines

  /** The index of the first newline, or the length. */
  function NewlineAt(t: Bytes): (i: nat)
    ensures i <= |t| && NEWLINE !in t[..i]
    ensures i < |t| ==> t[i] == NEWLINE
  {
    if t == [] || t[0] == NEWLINE then 0
    else
      var i := NewlineAt(t[1..]);
      assert t[..i + 1] == [t[0]] + t[1..][..i];
      i + 1
  }

  function StripReturn(line: Bytes): Bytes {
    if line != [] && line[|line| - 1] == RETURN then line[..|line| - 1] else line
  }

  /** The lines of a text: each ends at a newline, before which one carriage return is dropped; what
      follows the last newline is a line of its own, kept as it is, unless it is empty. */
  function Lines(t: Bytes): seq<Bytes> {
    if t == [] then []
    else
      var i := NewlineAt(t);
      if i == |t| then [t] else [StripReturn(t[..i])] + Lines(t[i + 1..])
  }

  /** The lines with a newline behind each. */
  function Unlines(lines: seq<Bytes>): Bytes {
    if lines == [] then [] else lines[0] + [NEWLINE] + Unlines(lines[1..])
  }

  lemma {:induction false} NewlineAtBetween(a: Bytes, b: Bytes)
    requires NEWLINE !in a
    ensures NewlineAt(a + [NEWLINE] + b) == |a|
    decreases |a|
  {
    if a != [] {
      NewlineAtBetween(a[1..], b);
      assert (a + [NEWLINE] + b)[1..] == a[1..] + [NEWLINE] + b;
    }
  }

  function Stripped(lines: seq<Bytes>): (r: seq<Bytes>)
    ensures |r| == |lines|
    ensures forall i :: 0 <= i < |r| ==> r[i] == StripReturn(lines[i])
  {
    seq(|lines|, i requires 0 <= i < |lines| => StripReturn(lines[i]))
  }

  ghost predicate NoNewlines(lines: seq<Bytes>) {
    forall i :: 0 <= i < |lines| ==> NEWLINE !in lines[i]
  }

  /** The first line ends at the first newline. */
  lemma LinesStep(a: Bytes, b: Bytes)
    requires NEWLINE !in a
    ensures Lines(a + [NEWLINE] + b) == [StripReturn(a)] + Lines(b)
  {
    NewlineAtBetween(a, b);
    var t := a + [NEWLINE] + b;
    assert t[..|a|] == a && t[|a| + 1..] == b;
  }

  lemma StrippedCons(lines: seq<Bytes>)
    requires lines != []
    ensures Stripped(lines) == [StripReturn(lines[0])] + Stripped(lines[1..])
  {
  }

  /** Splitting what was joined gives the lines without their last carriage returns. */
  lemma {:induction false} LinesOfUnlines(lines: seq<Bytes>)
    requires NoNewlines(lines)
    ensures Lines(Unlines(lines)) == Stripped(lines)
    decreases |lines|
  {
    if lines != [] {
      LinesStep(lines[0], Unlines(lines[1..]));
      LinesOfUnlines(lines[1..]);
      StrippedCons(lines);
    }
  }

  /** Bytes behind the last newline are a line of their own, with a carriage return at their end kept. */
  lemma {:induction false} LinesOfOpenText(lines: seq<Bytes>, rest: Bytes)
    requires NoNewlines(lines) && rest != [] && NEWLINE !in rest
    ensures Lines(Unlines(lines) + rest) == Stripped(lines) + [rest]
    decreases |lines|
  {
    if lines == [] {
      NoNewlineAt(rest);
      assert Unlines(lines) + rest == rest;
    } else {
      OpenStep(lines[0], Unlines(lines[1..]), rest);
      LinesOfOpenText(lines[1..], rest);
      StrippedCons(lines);
    }
  }

  lemma OpenStep(a: Bytes, b: Bytes, rest: Bytes)
    requires NEWLINE !in a
    ensures Lines(a + [NEWLINE] + b + rest) == [StripReturn(a)] + Lines(b + rest)
  {
    LinesStep(a, b + rest);
    assert a + [NEWLINE] + b + rest == a + [NEWLINE] + (b + rest);
  }

  lemma {:induction false} NoNewlineAt(t: Bytes)
    requires NEWLINE !in t
    ensures NewlineAt(t) == |t|
    decreases |t|
  {
    if t != [] {
      NoNewlineAt(t[1..]);
    }
  }

  lemma {:induction false} LinesHaveNoNewlines(t: Bytes)
    ensures NoNewlines(Lines(t))
    decreases |t|
  {
    if t != [] {
      var i := NewlineAt(t);
      if i == |t| {
        assert t[..i] == t;
      } else {
        LinesHaveNoNewlines(t[i + 1..]);
      }
    }
  }

  /** Joining and splitting is a round trip exactly for lines without newlines and without a carriage return at the end. */
  lemma RoundTripIff(lines: seq<Bytes>)
    ensures Lines(Unlines(lines)) == lines <==>
      forall i :: 0 <= i < |lines| ==> NEWLINE !in lines[i] && StripReturn(lines[i]) == lines[i]
  {
    LinesHaveNoNewlines(Unlines(lines));
    if NoNewlines(lines) {
      LinesOfUnlines(lines);
    }
  }

  ghost predicate AllText(lines: seq<Bytes>) {
    forall i :: 0 <= i < |lines| ==> Utf8(lines[i])
  }

  lemma AllTextCons(line: Bytes, rest: seq<Bytes>)
    requires Utf8(line) && AllText(rest)
    ensures AllText([line] + rest)
  {
  }

  /** The lines of a text are texts. */
  lemma {:induction false} LinesAreText(t: Bytes)
    requires Utf8(t)
    ensures AllText(Lines(t))
    decreases |t|
  {
    var i := NewlineAt(t);
    if i < |t| {
      var line, rest := t[..i], t[i + 1..];
      assert t == line + [NEWLINE] + rest;
      Utf8SplitAtNewline(line, rest);
      StripKeepsText(line);
      LinesAreText(rest);
      AllTextCons(StripReturn(line), Lines(rest));
    }
  }

  lemma {:induction false} StripKeepsText(line: Bytes)
    requires Utf8(line)
    ensures Utf8(StripReturn(line))
    decreases |line|
  {
    if line != [] && line[|line| - 1] == RETURN {
      var n := FirstUnit(line).size;
      var front := line[..|line| - 1];
      if n == |line| {
        assert n == 1;
      } else {
        StripKeepsText(line[n..]);
        assert front[n..] == line[n..][..|line[n..]| - 1];
        assert FirstUnit(front) == FirstUnit(line);
      }
    }
  }

  lemma {:induction false} UnlinesIsText(lines: seq<Bytes>)
    requires AllText(lines)
    ensures Utf8(Unlines(lines))
    decreases |lines|
  {
    if lines != [] {
      UnlinesIsText(lines[1..]);
      var nl := [NEWLINE];
      assert FirstUnit(nl) == Unit(1, true) && nl[1..] == [];
      Utf8Concat(lines[0], nl);
      Utf8Concat(lines[0] + nl, Unlines(lines[1..]));
    }
  }

  lemma {:induction false} UnlinesAppend(lines: seq<Bytes>, line: Bytes)
    ensures Unlines(lines + [line]) == Unlines(lines) + line + [NEWLINE]
    decreases |lines|
  {
    if lines == [] {
      assert (lines + [line])[1..] == [];
    } else {
      UnlinesAppend(lines[1..], line);
      assert (lines + [line])[1..] == lines[1..] + [line];
    }
  }
}
