/**
 * The additive-pattern codec: a compressor that replaces long runs of
 * bytes with a constant first difference (mod 256) by DeltaIter
 * instructions, and the interpreter that expands a section stream again.
 */
module AdditiveAlg {
  import opened Types
  import opened Protocol

  /** A run is turned into an instruction when more than this many bytes follow its anchor. */
  const GenerateCodeIfMoreBytesThanThis: nat := 10

  /** Bytes in one encoded DeltaIter instruction: opcode, start, 2-byte count, delta. */
  const InstructionSize: nat := 5

  // ---------------------------------------------------------------------
  // Decompression: the interpreter, as specification functions
  // ---------------------------------------------------------------------

  /** The bytes a DeltaIter instruction emits: the k-th is (startOffset + k * delta) mod 256. */
  function DeltaIterRun(startOffset: byte, count: nat, delta: byte): (run: seq<byte>)
  {
    seq(count, k => (startOffset as int + k * delta as int) % 256)
  }

  /** Output so far followed by the outcome of the rest; an error discards the output. */
  function Prepend(output: seq<byte>, rest: Result<seq<byte>>): Result<seq<byte>>
  {
    if rest.Ok? then Ok(output + rest.value) else rest
  }

  lemma PrependNothing(rest: Result<seq<byte>>)
    ensures Prepend([], rest) == rest
  {
    if rest.Ok? {
      assert [] + rest.value == rest.value;
    }
  }

  lemma PrependPrepend(first: seq<byte>, second: seq<byte>, rest: Result<seq<byte>>)
    ensures Prepend(first, Prepend(second, rest)) == Prepend(first + second, rest)
  {
    if rest.Ok? {
      assert first + (second + rest.value) == first + second + rest.value;
    }
  }

  /**
   * Interprets instructions starting at c[j] until the cursor reaches
   * codeEnd. Reads are made against the whole stream, so an instruction
   * may extend past codeEnd; only running off the stream fails.
   */
  function RunCode(c: seq<byte>, j: nat, codeEnd: nat): (r: Result<seq<byte>>)
    requires j <= |c|
    ensures r.Ok? ==> codeEnd <= |c|
    decreases |c| - j
  {
    if j >= codeEnd then Ok([])
    else if j >= |c| then Err(OutOfRange)
    else if c[j] != DeltaIter then Err(UnknownOpcode(c[j]))
    else if j + InstructionSize > |c| then Err(OutOfRange)
    else Prepend(DeltaIterRun(c[j + 1], U16At(c, j + 2), c[j + 4]), RunCode(c, j + InstructionSize, codeEnd))
  }

  /** Decodes the sections of c from cursor i to the end of the stream. */
  function DecodeFrom(c: seq<byte>, i: nat): Result<seq<byte>>
    requires i <= |c|
    decreases |c| - i
  {
    if i == |c| then Ok([])
    else if i + HeaderSize > |c| then Err(OutOfRange)
    else
      var sectionType := GetSectionTypeAt(c, i);
      var sectionLength := GetSectionLengthAt(c, i);
      var p := i + HeaderSize;
      if sectionType == Data then
        if p + sectionLength > |c| then Err(OutOfRange)
        else Prepend(c[p..p + sectionLength], DecodeFrom(c, p + sectionLength))
      else if sectionType == Code then
        match RunCode(c, p, p + sectionLength)
        case Err(e) => Err(e)
        case Ok(output) => Prepend(output, DecodeFrom(c, p + sectionLength))
      else Err(UnknownSectionType(sectionType))
  }

  /** What Decompress returns for a whole stream. */
  function Decoded(c: seq<byte>): Result<seq<byte>>
  {
    DecodeFrom(c, 0)
  }

  // ---------------------------------------------------------------------
  // Decompression: the method
  // ---------------------------------------------------------------------

  /** The inner loop of DeltaIter: appends count bytes of the progression to the output. */
  method EmitDeltaIter(decompressed: seq<byte>, startOffset: byte, count: u16, delta: byte) returns (extended: seq<byte>)
    ensures extended == decompressed + DeltaIterRun(startOffset, count, delta)
  {
    extended := decompressed;
    for k := 0 to count
      invariant extended == decompressed + DeltaIterRun(startOffset, k, delta)
    {
      assert DeltaIterRun(startOffset, k + 1, delta) == DeltaIterRun(startOffset, k, delta) + [(startOffset as int + k * delta as int) % 256];
      extended := extended + [(startOffset as int + k * delta as int) % 256];
    }
  }

  /** The instruction loop of Decompress for one Code section: interprets from c[start] until the cursor reaches codeEnd. */
  method RunCodeSection(c: seq<byte>, start: nat, codeEnd: nat) returns (r: Result<seq<byte>>)
    requires start <= |c|
    ensures r == RunCode(c, start, codeEnd)
  {
    var decompressed: seq<byte> := [];
    var j := start;
    PrependNothing(RunCode(c, start, codeEnd));
    while j < codeEnd
      invariant start <= j <= |c|
      invariant RunCode(c, start, codeEnd) == Prepend(decompressed, RunCode(c, j, codeEnd))
      decreases |c| - j
    {
      if j >= |c| {
        return Err(OutOfRange);
      }
      ghost var instruction := j;
      var opCode := c[j];
      j := j + 1;
      if opCode == DeltaIter {
        if j + 4 > |c| {
          return Err(OutOfRange);
        }
        var startOffset := c[j];
        j := j + 1;
        var count := U16At(c, j);
        j := j + 2;
        var delta := c[j];
        j := j + 1;
        ghost var before := decompressed;
        decompressed := EmitDeltaIter(decompressed, startOffset, count, delta);
        assert j == instruction + InstructionSize;
        PrependPrepend(before, DeltaIterRun(startOffset, count, delta), RunCode(c, j, codeEnd));
      } else {
        return Err(UnknownOpcode(opCode));
      }
    }
    assert decompressed + [] == decompressed;
    return Ok(decompressed);
  }

  method Decompress(compressed: seq<byte>) returns (r: Result<seq<byte>>)
    ensures r == Decoded(compressed)
  {
    var decompressed: seq<byte> := [];
    var i := 0;
    ghost var whole := Decoded(compressed);
    PrependNothing(whole);
    while i < |compressed|
      invariant 0 <= i <= |compressed|
      invariant whole == Prepend(decompressed, DecodeFrom(compressed, i))
      decreases |compressed| - i
    {
      ghost var start, before := i, decompressed;
      if i + HeaderSize > |compressed| {
        DecodeStops(compressed, i, OutOfRange, decompressed, whole);
        return Err(OutOfRange);
      }
      var sectionType := GetSectionTypeAt(compressed, i);
      var sectionLength := GetSectionLengthAt(compressed, i);
      i := i + HeaderSize;
      if sectionType == Data {
        if i + sectionLength > |compressed| {
          DecodeStops(compressed, start, OutOfRange, decompressed, whole);
          return Err(OutOfRange);
        }
        decompressed := decompressed + compressed[i..i + sectionLength];
        i := i + sectionLength;
        DecodeAdvance(compressed, start, i, compressed[start + HeaderSize..i], before, whole);
      } else if sectionType == Code {
        var output := RunCodeSection(compressed, i, i + sectionLength);
        if output.Err? {
          DecodeStops(compressed, start, output.error, decompressed, whole);
          return Err(output.error);
        }
        decompressed := decompressed + output.value;
        i := i + sectionLength;
        DecodeAdvance(compressed, start, i, output.value, before, whole);
      } else {
        DecodeStops(compressed, start, UnknownSectionType(sectionType), decompressed, whole);
        return Err(UnknownSectionType(sectionType));
      }
    }
    assert decompressed + [] == decompressed;
    return Ok(decompressed);
  }

  /** A section the interpreter gets through adds its output after what came before. */
  lemma DecodeAdvance(c: seq<byte>, i: nat, next: nat, output: seq<byte>, done: seq<byte>, whole: Result<seq<byte>>)
    requires i + HeaderSize <= |c| && next == i + HeaderSize + GetSectionLengthAt(c, i) && next <= |c|
    requires || (GetSectionTypeAt(c, i) == Data && output == c[i + HeaderSize..next])
             || (GetSectionTypeAt(c, i) == Code && RunCode(c, i + HeaderSize, next) == Ok(output))
    requires whole == Prepend(done, DecodeFrom(c, i))
    ensures whole == Prepend(done + output, DecodeFrom(c, next))
  {
    assert DecodeFrom(c, i) == Prepend(output, DecodeFrom(c, next));
    PrependPrepend(done, output, DecodeFrom(c, next));
  }

  /** A failure anywhere discards the output decoded so far. */
  lemma DecodeStops(c: seq<byte>, i: nat, e: Error, done: seq<byte>, whole: Result<seq<byte>>)
    requires i < |c| && whole == Prepend(done, DecodeFrom(c, i))
    requires || (i + HeaderSize > |c| && e == OutOfRange)
             || (i + HeaderSize <= |c| && GetSectionTypeAt(c, i) == Data
                 && i + HeaderSize + GetSectionLengthAt(c, i) > |c| && e == OutOfRange)
             || (i + HeaderSize <= |c| && GetSectionTypeAt(c, i) == Code
                 && RunCode(c, i + HeaderSize, i + HeaderSize + GetSectionLengthAt(c, i)) == Err(e))
             || (i + HeaderSize <= |c| && GetSectionTypeAt(c, i) !in {Data, Code}
                 && e == UnknownSectionType(GetSectionTypeAt(c, i)))
    ensures whole == Err(e)
  {
  }

  // ---------------------------------------------------------------------
  // Decompression: examples
  // ---------------------------------------------------------------------

  /** The bytes of a DeltaIter run wrap around modulo 256. */
  lemma DeltaIterWraps()
    ensures DeltaIterRun(250, 10, 5) == [250, 255, 4, 9, 14, 19, 24, 29, 34, 39]
  {
  }

  /** How decoding fails: an unknown section tag, an unknown opcode, a payload or header cut short. */
  lemma DecodeFailures()
    ensures Decoded([2, 0, 0]) == Err(UnknownSectionType(2))
    ensures Decoded([Code, 5, 0, 99, 0, 0, 0, 0]) == Err(UnknownOpcode(99))
    ensures Decoded([Data, 5, 0, 1]) == Err(OutOfRange)
    ensures Decoded([Data, 0]) == Err(OutOfRange)
    ensures Decoded([Code, 5, 0, DeltaIter, 1, 2]) == Err(OutOfRange)
  {
  }

  // ---------------------------------------------------------------------
  // Decompression: properties of the interpreter
  // ---------------------------------------------------------------------

  /** Instruction reads depend only on the bytes from the cursor on. */
  lemma {:induction false} RunCodeShift(a: seq<byte>, b: seq<byte>, j: nat, codeEnd: nat)
    requires j <= |b|
    ensures RunCode(a + b, |a| + j, |a| + codeEnd) == RunCode(b, j, codeEnd)
    decreases |b| - j
  {
    var c := a + b;
    if j < codeEnd && j < |b| && b[j] == DeltaIter && j + InstructionSize <= |b| {
      assert c[|a| + j] == b[j] && c[|a| + j + 1] == b[j + 1] && c[|a| + j + 4] == b[j + 4];
      assert U16At(c, |a| + j + 2) == U16At(b, j + 2);
      RunCodeShift(a, b, j + InstructionSize, codeEnd);
    } else if j < codeEnd && j < |b| {
      assert c[|a| + j] == b[j];
    }
  }

  /** Section decoding depends only on the bytes from the cursor on. */
  lemma {:induction false} DecodeShift(a: seq<byte>, b: seq<byte>, i: nat)
    requires i <= |b|
    ensures DecodeFrom(a + b, |a| + i) == DecodeFrom(b, i)
    decreases |b| - i, 1
  {
    if i < |b| && i + HeaderSize <= |b| {
      var c := a + b;
      assert c[|a| + i] == b[i] && U16At(c, |a| + i + 1) == U16At(b, i + 1);
      if b[i] == Data {
        DecodeShiftData(a, b, i);
      } else if b[i] == Code {
        DecodeShiftCode(a, b, i);
      }
    }
  }

  /** One step of DecodeFrom at a Data section whose payload is present. */
  lemma DecodeDataUnfold(c: seq<byte>, i: nat, next: nat, payload: seq<byte>, tail: Result<seq<byte>>)
    requires i + HeaderSize <= |c| && c[i] == Data
    requires next == i + HeaderSize + GetSectionLengthAt(c, i) <= |c|
    requires c[i + HeaderSize..next] == payload && DecodeFrom(c, next) == tail
    ensures DecodeFrom(c, i) == Prepend(payload, tail)
  {
  }

  /** One step of DecodeFrom at a Code section whose instructions run. */
  lemma DecodeCodeUnfold(c: seq<byte>, i: nat, next: nat, output: seq<byte>, tail: Result<seq<byte>>)
    requires i + HeaderSize <= |c| && c[i] == Code
    requires next == i + HeaderSize + GetSectionLengthAt(c, i) <= |c|
    requires RunCode(c, i + HeaderSize, next) == Ok(output) && DecodeFrom(c, next) == tail
    ensures DecodeFrom(c, i) == Prepend(output, tail)
  {
  }

  /** A Data section whose payload runs past the end of the stream. */
  lemma DecodeDataShort(c: seq<byte>, i: nat)
    requires i + HeaderSize <= |c| && c[i] == Data
    requires i + HeaderSize + GetSectionLengthAt(c, i) > |c|
    ensures DecodeFrom(c, i) == Err(OutOfRange)
  {
  }

  /** Two adjacent slices join into one. */
  lemma SliceJoin<T>(s: seq<T>, lo: nat, mid: nat)
    requires lo <= mid <= |s|
    ensures s[lo..mid] + s[mid..] == s[lo..]
  {
  }

  /** A slice of the second half of a concatenation, at shifted indices. */
  lemma SliceShift<T>(a: seq<T>, b: seq<T>, lo: nat, hi: nat)
    requires lo <= hi <= |b|
    ensures (a + b)[|a| + lo..|a| + hi] == b[lo..hi]
  {
  }

  lemma {:induction false} DecodeShiftData(a: seq<byte>, b: seq<byte>, i: nat)
    requires i + HeaderSize <= |b| && b[i] == Data
    ensures DecodeFrom(a + b, |a| + i) == DecodeFrom(b, i)
    decreases |b| - i, 0
  {
    var c := a + b;
    var off := |a| + i;
    assert c[off] == b[i] && c[off + 1] == b[i + 1] && c[off + 2] == b[i + 2];
    assert GetSectionLengthAt(c, off) == GetSectionLengthAt(b, i);
    var p := i + HeaderSize;
    var next := p + GetSectionLengthAt(b, i);
    if next <= |b| {
      var payload := b[p..next];
      SliceShift(a, b, p, next);
      DecodeShift(a, b, next);
      var tail := DecodeFrom(b, next);
      DecodeDataUnfold(c, off, |a| + next, payload, tail);
      DecodeDataUnfold(b, i, next, payload, tail);
    } else {
      DecodeDataShort(c, off);
      DecodeDataShort(b, i);
    }
  }

  lemma {:induction false} DecodeShiftCode(a: seq<byte>, b: seq<byte>, i: nat)
    requires i + HeaderSize <= |b| && b[i] == Code
    ensures DecodeFrom(a + b, |a| + i) == DecodeFrom(b, i)
    decreases |b| - i, 0
  {
    var c := a + b;
    var off := |a| + i;
    assert c[off] == b[i] && c[off + 1] == b[i + 1] && c[off + 2] == b[i + 2];
    assert GetSectionLengthAt(c, off) == GetSectionLengthAt(b, i);
    var p := i + HeaderSize;
    var next := p + GetSectionLengthAt(b, i);
    assert p <= |b|;
    RunCodeShift(a, b, p, next);
    var run := RunCode(b, p, next);
    assert RunCode(c, |a| + p, |a| + next) == run;
    if run.Ok? {
      assert next <= |b|;
      DecodeShift(a, b, next);
      var tail := DecodeFrom(b, next);
      DecodeCodeUnfold(c, off, |a| + next, run.value, tail);
      DecodeCodeUnfold(b, i, next, run.value, tail);
    }
  }

  /** Bytes appended after a successful instruction run do not change it. */
  lemma {:induction false} RunCodeExtend(a: seq<byte>, b: seq<byte>, j: nat, codeEnd: nat)
    requires j <= |a| && RunCode(a, j, codeEnd).Ok?
    ensures RunCode(a + b, j, codeEnd) == RunCode(a, j, codeEnd)
    decreases |a| - j
  {
    var c := a + b;
    if j < codeEnd {
      assert c[j] == a[j] && c[j + 1] == a[j + 1] && c[j + 4] == a[j + 4];
      assert U16At(c, j + 2) == U16At(a, j + 2);
      RunCodeExtend(a, b, j + InstructionSize, codeEnd);
    }
  }

  /** Bytes appended after a stream that decodes are decoded after it. */
  lemma {:induction false} DecodeExtend(a: seq<byte>, b: seq<byte>, i: nat)
    requires i <= |a| && DecodeFrom(a, i).Ok?
    ensures DecodeFrom(a + b, i) == Prepend(DecodeFrom(a, i).value, Decoded(b))
    decreases |a| - i, 1
  {
    if i == |a| {
      DecodeShift(a, b, 0);
      PrependNothing(Decoded(b));
    } else if a[i] == Data {
      DecodeExtendData(a, b, i);
    } else {
      DecodeExtendCode(a, b, i);
    }
  }

  /** What a successful decode tells about the section at the cursor. */
  lemma DecodeOkSection(c: seq<byte>, i: nat)
    requires i < |c| && DecodeFrom(c, i).Ok?
    ensures i + HeaderSize <= |c| && (c[i] == Data || c[i] == Code)
    ensures c[i] == Data ==> i + HeaderSize + GetSectionLengthAt(c, i) <= |c|
    ensures c[i] == Code ==> RunCode(c, i + HeaderSize, i + HeaderSize + GetSectionLengthAt(c, i)).Ok?
  {
  }

  lemma {:induction false} DecodeExtendData(a: seq<byte>, b: seq<byte>, i: nat)
    requires i < |a| && DecodeFrom(a, i).Ok? && a[i] == Data
    ensures DecodeFrom(a + b, i) == Prepend(DecodeFrom(a, i).value, Decoded(b))
    decreases |a| - i, 0
  {
    DecodeOkSection(a, i);
    var c := a + b;
    assert c[i] == a[i] && c[i + 1] == a[i + 1] && c[i + 2] == a[i + 2];
    assert GetSectionLengthAt(c, i) == GetSectionLengthAt(a, i);
    var p := i + HeaderSize;
    var next := p + GetSectionLengthAt(a, i);
    var payload := a[p..next];
    assert c[p..next] == payload;
    var tailA := DecodeFrom(a, next);
    DecodeDataUnfold(a, i, next, payload, tailA);
    assert tailA.Ok?;
    DecodeExtend(a, b, next);
    var tailC := DecodeFrom(c, next);
    DecodeDataUnfold(c, i, next, payload, tailC);
    PrependPrepend(payload, tailA.value, Decoded(b));
  }

  lemma {:induction false} DecodeExtendCode(a: seq<byte>, b: seq<byte>, i: nat)
    requires i < |a| && DecodeFrom(a, i).Ok? && a[i] != Data
    ensures DecodeFrom(a + b, i) == Prepend(DecodeFrom(a, i).value, Decoded(b))
    decreases |a| - i, 0
  {
    DecodeOkSection(a, i);
    var c := a + b;
    assert c[i] == a[i] && c[i + 1] == a[i + 1] && c[i + 2] == a[i + 2];
    assert GetSectionLengthAt(c, i) == GetSectionLengthAt(a, i);
    var p := i + HeaderSize;
    var next := p + GetSectionLengthAt(a, i);
    var run := RunCode(a, p, next);
    RunCodeExtend(a, b, p, next);
    assert RunCode(c, p, next) == run;
    var tailA := DecodeFrom(a, next);
    DecodeCodeUnfold(a, i, next, run.value, tailA);
    assert tailA.Ok?;
    DecodeExtend(a, b, next);
    var tailC := DecodeFrom(c, next);
    DecodeCodeUnfold(c, i, next, run.value, tailC);
    PrependPrepend(run.value, tailA.value, Decoded(b));
  }

  /** Decoding is compositional: a stream that decodes, followed by any stream, decodes to the concatenation. */
  lemma DecodeConcat(a: seq<byte>, b: seq<byte>)
    requires Decoded(a).Ok?
    ensures Decoded(a + b) == Prepend(Decoded(a).value, Decoded(b))
  {
    DecodeExtend(a, b, 0);
  }

  /** A Code payload made of whole DeltaIter instructions. */
  predicate WellFormedCode(payload: seq<byte>)
    decreases |payload|
  {
    payload == [] ||
    (|payload| >= InstructionSize && payload[0] == DeltaIter && WellFormedCode(payload[InstructionSize..]))
  }

  /** What a well-formed Code payload stands for: the runs of its instructions, in order. */
  function CodeMeaning(payload: seq<byte>): seq<byte>
    requires WellFormedCode(payload)
    decreases |payload|
  {
    if payload == [] then []
    else DeltaIterRun(payload[1], U16At(payload, 2), payload[4]) + CodeMeaning(payload[InstructionSize..])
  }

  /** A section the interpreter accepts on its own: a Data section, or a Code section of whole instructions. */
  predicate WellFormed(s: seq<byte>)
  {
    IsSection(s) &&
    (GetSectionType(s) == Data || (GetSectionType(s) == Code && WellFormedCode(GetSectionData(s))))
  }

  predicate AllWellFormed(sections: seq<seq<byte>>)
  {
    forall k :: 0 <= k < |sections| ==> WellFormed(sections[k])
  }

  function SectionMeaning(s: seq<byte>): seq<byte>
    requires WellFormed(s)
  {
    if GetSectionType(s) == Data then GetSectionData(s) else CodeMeaning(GetSectionData(s))
  }

  /** The bytes a list of well-formed sections stands for. */
  function Meaning(sections: seq<seq<byte>>): seq<byte>
    requires AllWellFormed(sections)
  {
    if sections == [] then [] else SectionMeaning(sections[0]) + Meaning(sections[1..])
  }

  /** The stream that serializes a list of sections. */
  function Concat(sections: seq<seq<byte>>): seq<byte>
  {
    if sections == [] then [] else sections[0] + Concat(sections[1..])
  }

  lemma {:induction false} ConcatAppend(x: seq<seq<byte>>, y: seq<seq<byte>>)
    ensures Concat(x + y) == Concat(x) + Concat(y)
  {
    if x == [] {
      assert x + y == y;
    } else {
      assert (x + y)[1..] == x[1..] + y;
      ConcatAppend(x[1..], y);
    }
  }

  lemma {:induction false} MeaningAppend(x: seq<seq<byte>>, y: seq<seq<byte>>)
    requires AllWellFormed(x) && AllWellFormed(y)
    ensures AllWellFormed(x + y) && Meaning(x + y) == Meaning(x) + Meaning(y)
  {
    if x == [] {
      assert x + y == y;
    } else {
      assert (x + y)[1..] == x[1..] + y;
      MeaningAppend(x[1..], y);
    }
  }

  /** The interpreter runs a well-formed Code payload to exactly its meaning. */
  lemma {:induction false} RunCodeWellFormed(c: seq<byte>, j: nat, payload: seq<byte>)
    requires j + |payload| <= |c| && c[j..j + |payload|] == payload && WellFormedCode(payload)
    ensures RunCode(c, j, j + |payload|) == Ok(CodeMeaning(payload))
    decreases |payload|
  {
    if payload != [] {
      assert c[j] == payload[0] && c[j + 1] == payload[1] && c[j + 4] == payload[4];
      assert U16At(c, j + 2) == U16At(payload, 2);
      var tail := payload[InstructionSize..];
      assert c[j + InstructionSize..j + InstructionSize + |tail|] == tail;
      RunCodeWellFormed(c, j + InstructionSize, tail);
    }
  }

  /** A Data section decodes to its payload verbatim; a well-formed Code section to its instructions' runs. */
  lemma DecodeSection(s: seq<byte>)
    requires WellFormed(s)
    ensures Decoded(s) == Ok(SectionMeaning(s))
  {
    var payload := GetSectionData(s);
    assert DecodeFrom(s, |s|) == Ok([]);
    if GetSectionType(s) == Data {
      assert s[HeaderSize..HeaderSize + |payload|] == payload;
      assert payload + [] == payload;
    } else {
      RunCodeWellFormed(s, HeaderSize, payload);
      assert CodeMeaning(payload) + [] == CodeMeaning(payload);
    }
  }

  /** A serialized list of well-formed sections decodes to what the list stands for. */
  lemma {:induction false} DecodeSections(sections: seq<seq<byte>>)
    requires AllWellFormed(sections)
    ensures Decoded(Concat(sections)) == Ok(Meaning(sections))
  {
    if sections == [] {
    } else {
      DecodeSection(sections[0]);
      DecodeSections(sections[1..]);
      DecodeConcat(sections[0], Concat(sections[1..]));
    }
  }

  /** The sum of the counts of the instructions in a well-formed Code payload. */
  function CodeCount(payload: seq<byte>): nat
    requires WellFormedCode(payload)
    decreases |payload|
  {
    if payload == [] then 0 else U16At(payload, 2) + CodeCount(payload[InstructionSize..])
  }

  /** A Code payload expands to as many bytes as its instructions count. */
  lemma {:induction false} CodeMeaningLength(payload: seq<byte>)
    requires WellFormedCode(payload)
    ensures |CodeMeaning(payload)| == CodeCount(payload)
    decreases |payload|
  {
    if payload != [] {
      CodeMeaningLength(payload[InstructionSize..]);
    }
  }

  /** The sum of the Data lengths and of the DeltaIter counts of a list of well-formed sections. */
  function OutputLength(sections: seq<seq<byte>>): nat
    requires AllWellFormed(sections)
  {
    if sections == [] then 0
    else
      var s := sections[0];
      (if GetSectionType(s) == Data then GetSectionLength(s) else CodeCount(GetSectionData(s)))
      + OutputLength(sections[1..])
  }

  lemma {:induction false} MeaningLength(sections: seq<seq<byte>>)
    requires AllWellFormed(sections)
    ensures |Meaning(sections)| == OutputLength(sections)
  {
    if sections != [] {
      var s := sections[0];
      if GetSectionType(s) == Code {
        CodeMeaningLength(GetSectionData(s));
      }
      MeaningLength(sections[1..]);
    }
  }

  /** A serialized list of well-formed sections decodes to as many bytes as its Data lengths and counts add up to. */
  lemma DecodedLength(sections: seq<seq<byte>>)
    requires AllWellFormed(sections)
    ensures Decoded(Concat(sections)).Ok?
    ensures |Decoded(Concat(sections)).value| == OutputLength(sections)
  {
    DecodeSections(sections);
    MeaningLength(sections);
  }

  /** Each well-formed Code payload is a whole number of five-byte instructions. */
  lemma {:induction false} CodeAligned(payload: seq<byte>)
    requires WellFormedCode(payload)
    ensures |payload| % InstructionSize == 0
    decreases |payload|
  {
    if payload != [] {
      CodeAligned(payload[InstructionSize..]);
    }
  }

  /** Joining two well-formed Code payloads keeps them well-formed and joins their meanings. */
  lemma CodeAppend(p: seq<byte>, q: seq<byte>)
    requires WellFormedCode(p) && WellFormedCode(q)
    ensures WellFormedCode(p + q) && CodeMeaning(p + q) == CodeMeaning(p) + CodeMeaning(q)
  {
    CodeAppendWellFormed(p, q);
    CodeAppendMeaning(p, q);
  }

  lemma {:induction false} CodeAppendWellFormed(p: seq<byte>, q: seq<byte>)
    requires WellFormedCode(p) && WellFormedCode(q)
    ensures WellFormedCode(p + q)
    decreases |p|
  {
    if p == [] {
      assert p + q == q;
    } else {
      var pq := p + q;
      assert pq[InstructionSize..] == p[InstructionSize..] + q;
      assert pq[0] == p[0];
      CodeAppendWellFormed(p[InstructionSize..], q);
    }
  }

  /** The first instruction's run, then the rest of the payload's meaning. */
  lemma CodeMeaningUnfold(p: seq<byte>)
    requires WellFormedCode(p) && p != []
    ensures WellFormedCode(p[InstructionSize..])
    ensures CodeMeaning(p) == DeltaIterRun(p[1], U16At(p, 2), p[4]) + CodeMeaning(p[InstructionSize..])
  {
    var whole := CodeMeaning(p);
    var parts := DeltaIterRun(p[1], U16At(p, 2), p[4]) + CodeMeaning(p[InstructionSize..]);
    assert whole == parts;
  }

  lemma {:induction false} CodeAppendMeaning(p: seq<byte>, q: seq<byte>)
    requires WellFormedCode(p) && WellFormedCode(q) && WellFormedCode(p + q)
    ensures CodeMeaning(p + q) == CodeMeaning(p) + CodeMeaning(q)
    decreases |p|
  {
    if p == [] {
      assert p + q == q;
    } else {
      var pq, tail := p + q, p[InstructionSize..];
      assert pq[InstructionSize..] == tail + q;
      assert pq[1] == p[1] && pq[4] == p[4] && U16At(pq, 2) == U16At(p, 2);
      var head := DeltaIterRun(p[1], U16At(p, 2), p[4]);
      CodeMeaningUnfold(pq);
      CodeMeaningUnfold(p);
      CodeAppendMeaning(tail, q);
      AppendChain(head, CodeMeaning(tail), CodeMeaning(q), CodeMeaning(tail + q), CodeMeaning(pq));
    }
  }

  /** Cutting a well-formed Code payload at an instruction boundary leaves two well-formed payloads. */
  lemma CodeSplit(p: seq<byte>, m: nat)
    requires WellFormedCode(p) && m <= |p| && m % InstructionSize == 0
    ensures WellFormedCode(p[..m]) && WellFormedCode(p[m..])
  {
    CodePrefix(p, m);
    CodeSuffix(p, m);
  }

  lemma {:induction false} CodePrefix(p: seq<byte>, m: nat)
    requires WellFormedCode(p) && m <= |p| && m % InstructionSize == 0
    ensures WellFormedCode(p[..m])
    decreases m
  {
    if m == 0 {
      assert p[..m] == [];
    } else {
      var tail := p[InstructionSize..];
      assert InstructionSize <= m && (m - InstructionSize) % InstructionSize == 0;
      CodePrefix(tail, m - InstructionSize);
      assert tail[..m - InstructionSize] == p[..m][InstructionSize..];
    }
  }

  lemma {:induction false} CodeSuffix(p: seq<byte>, m: nat)
    requires WellFormedCode(p) && m <= |p| && m % InstructionSize == 0
    ensures WellFormedCode(p[m..])
    decreases m
  {
    if m == 0 {
      assert p[m..] == p;
    } else {
      var tail := p[InstructionSize..];
      assert InstructionSize <= m && (m - InstructionSize) % InstructionSize == 0;
      CodeSuffix(tail, m - InstructionSize);
      assert tail[m - InstructionSize..] == p[m..];
    }
  }

  // ---------------------------------------------------------------------
  // Compression: the run scan, as specification functions
  // ---------------------------------------------------------------------

  /** The first difference at k, truncated to a byte as the cast in the scan does. */
  function Delta(data: seq<byte>, k: nat): byte
    requires 1 <= k < |data|
  {
    (data[k] as int - data[k - 1] as int) % 256
  }

  /**
   * The first position at or after j whose first difference departs from
   * the one at i, or the end of the data: the scan's j for a run anchored
   * at data[i-1].
   */
  function RunEnd(data: seq<byte>, i: nat, j: nat): (r: nat)
    requires 1 <= i < j <= |data|
    ensures j <= r <= |data|
    decreases |data| - j
  {
    if j == |data| || Delta(data, j) != Delta(data, i) then j else RunEnd(data, i, j + 1)
  }

  /** Every difference from j up to the run's end agrees with the one at i, and the one at the end departs from it. */
  lemma {:induction false} RunEndBreaks(data: seq<byte>, i: nat, j: nat)
    requires 1 <= i < j <= |data|
    ensures forall k :: j <= k < RunEnd(data, i, j) ==> Delta(data, k) == Delta(data, i)
    ensures RunEnd(data, i, j) < |data| ==> Delta(data, RunEnd(data, i, j)) != Delta(data, i)
    decreases |data| - j
  {
    if j < |data| && Delta(data, j) == Delta(data, i) {
      RunEndBreaks(data, i, j + 1);
    }
  }

  /** The cast of a non-negative count to ushort: it keeps the low 16 bits. */
  function ToUShort(n: nat): (c: u16)
    ensures c <= n
  {
    n % 0x1_0000
  }

  /** A count between 65536 and 131071 loses 65536 in the cast. */
  lemma ToUShortWraps(n: nat)
    requires 0x1_0000 <= n < 0x2_0000
    ensures ToUShort(n) == n - 0x1_0000
  {
  }

  /** The five bytes of one DeltaIter instruction. */
  function DeltaIterCode(startValue: byte, count: u16, delta: byte): (code: seq<byte>)
    ensures |code| == InstructionSize && WellFormedCode(code)
    ensures CodeMeaning(code) == DeltaIterRun(startValue, count, delta)
  {
    var code := [DeltaIter, startValue] + U16Bytes(count) + [delta];
    assert code[InstructionSize..] == [];
    assert DeltaIterRun(startValue, count, delta) + [] == DeltaIterRun(startValue, count, delta);
    code
  }

  /** A payload short enough for one section. */
  type ShortBytes = s: seq<byte> | |s| <= MaxSectionLength

  /** What one step of the scan decides to emit, before it is framed as a section. */
  datatype Emission =
    | Instruction(startValue: byte, count: u16, delta: byte)   // a Code section holding one DeltaIter
    | Literal(bytes: ShortBytes)                                // a Data section

  /** The section an emission is framed as. */
  function Frame(e: Emission): seq<byte>
  {
    match e
    case Instruction(startValue, count, delta) => MakeSection(Code, DeltaIterCode(startValue, count, delta)).value
    case Literal(bytes) => MakeSection(Data, bytes).value
  }

  function FrameAll(emissions: seq<Emission>): seq<seq<byte>>
  {
    if emissions == [] then [] else [Frame(emissions[0])] + FrameAll(emissions[1..])
  }

  /** The bytes an emission stands for. */
  function EmissionMeaning(e: Emission): seq<byte>
  {
    match e
    case Instruction(startValue, count, delta) => DeltaIterRun(startValue, count, delta)
    case Literal(bytes) => bytes
  }

  function EmissionsMeaning(emissions: seq<Emission>): seq<byte>
  {
    if emissions == [] then [] else EmissionMeaning(emissions[0]) + EmissionsMeaning(emissions[1..])
  }

  /** Each framed emission is a well-formed section of the matching type that stands for the emission's bytes. */
  lemma FrameMeaning(e: Emission)
    ensures WellFormed(Frame(e)) && SectionMeaning(Frame(e)) == EmissionMeaning(e)
    ensures GetSectionType(Frame(e)) == (if e.Instruction? then Code else Data)
  {
  }

  lemma {:induction false} FrameAllAppend(x: seq<Emission>, y: seq<Emission>)
    ensures FrameAll(x + y) == FrameAll(x) + FrameAll(y)
  {
    if x == [] {
      assert x + y == y;
    } else {
      assert (x + y)[1..] == x[1..] + y;
      FrameAllAppend(x[1..], y);
    }
  }

  lemma {:induction false} EmissionsMeaningAppend(x: seq<Emission>, y: seq<Emission>)
    ensures EmissionsMeaning(x + y) == EmissionsMeaning(x) + EmissionsMeaning(y)
  {
    if x == [] {
      assert x + y == y;
    } else {
      assert (x + y)[1..] == x[1..] + y;
      EmissionsMeaningAppend(x[1..], y);
    }
  }

  lemma WellFormedAppend(x: seq<seq<byte>>, y: seq<seq<byte>>)
    requires AllWellFormed(x) && AllWellFormed(y)
    ensures AllWellFormed(x + y) && AllSections(x + y)
  {
  }

  /** Framing a list of emissions gives well-formed sections that stand for the emissions' bytes. */
  lemma {:induction false} FrameAllMeaning(emissions: seq<Emission>)
    ensures |FrameAll(emissions)| == |emissions|
    ensures AllWellFormed(FrameAll(emissions)) && AllSections(FrameAll(emissions))
    ensures Meaning(FrameAll(emissions)) == EmissionsMeaning(emissions)
  {
    if emissions != [] {
      var first := Frame(emissions[0]);
      FrameMeaning(emissions[0]);
      FrameAllMeaning(emissions[1..]);
      MeaningSingle(first);
      MeaningAppend([first], FrameAll(emissions[1..]));
      WellFormedAppend([first], FrameAll(emissions[1..]));
    }
  }

  /**
   * What one step of the scan emits for the run anchored at data[i-1]
   * that breaks at j: an instruction whose count is j-i cast to 16 bits,
   * plus the break byte as literal data when the run stops before the
   * end; or the literal bytes data[i-1..j].
   */
  function ScanStep(data: seq<byte>, i: nat, j: nat): seq<Emission>
    requires 1 <= i < j <= |data|
  {
    var numberOfCompressableBytes := j - i;
    if numberOfCompressableBytes > GenerateCodeIfMoreBytesThanThis then
      [Instruction(data[i - 1], ToUShort(numberOfCompressableBytes), Delta(data, i))]
      + (if j != |data| then [Literal([data[j]])] else [])
    else
      [Literal(data[i - 1..j])]
  }

  /** What the scan emits from cursor i on; the next step starts at j + 1. */
  function Scan(data: seq<byte>, i: nat): seq<Emission>
    requires 1 <= i <= |data| + 1
    decreases |data| + 1 - i
  {
    if i >= |data| then []
    else
      var j := RunEnd(data, i, i + 1);
      ScanStep(data, i, j) + Scan(data, j + 1)
  }

  /** The scan emits something while data remains. */
  lemma ScanNonEmpty(data: seq<byte>, i: nat)
    requires 1 <= i < |data|
    ensures |Scan(data, i)| >= 1
  {
  }

  /** The scan with what was emitted so far in front: the shape of the scan loop's state. */
  function ScanAfter(data: seq<byte>, emitted: seq<Emission>, i: nat): seq<Emission>
    requires 1 <= i <= |data| + 1
    decreases |data| + 1 - i
  {
    if i >= |data| then emitted
    else
      var j := RunEnd(data, i, i + 1);
      ScanAfter(data, emitted + ScanStep(data, i, j), j + 1)
  }

  lemma ScanUnfold(data: seq<byte>, i: nat, j: nat)
    requires 1 <= i < |data| && j == RunEnd(data, i, i + 1)
    ensures Scan(data, i) == ScanStep(data, i, j) + Scan(data, j + 1)
  {
    assert i < j <= |data|;
    var whole := Scan(data, i);
    var parts := ScanStep(data, i, j) + Scan(data, j + 1);
    assert whole == parts;
  }

  lemma ScanAfterUnfold(data: seq<byte>, emitted: seq<Emission>, i: nat, j: nat)
    requires 1 <= i < |data| && j == RunEnd(data, i, i + 1)
    ensures ScanAfter(data, emitted, i) == ScanAfter(data, emitted + ScanStep(data, i, j), j + 1)
  {
    assert i < j <= |data|;
    var whole := ScanAfter(data, emitted, i);
    var rest := ScanAfter(data, emitted + ScanStep(data, i, j), j + 1);
    assert whole == rest;
  }

  /** One turn of the scan loop keeps the accumulated scan's final value. */
  lemma ScanAdvance(data: seq<byte>, emitted: seq<Emission>, i: nat, j: nat, next: nat, whole: seq<Emission>)
    requires 1 <= i < |data| && j == RunEnd(data, i, i + 1) && next == j + 1
    requires ScanAfter(data, emitted, i) == whole
    ensures ScanAfter(data, emitted + ScanStep(data, i, j), next) == whole
  {
    ScanAfterUnfold(data, emitted, i, j);
  }

  /** The accumulated scan is what was emitted so far followed by the rest of the scan. */
  lemma {:induction false} ScanAfterIsScan(data: seq<byte>, emitted: seq<Emission>, i: nat)
    requires 1 <= i <= |data| + 1
    ensures ScanAfter(data, emitted, i) == emitted + Scan(data, i)
    decreases |data| + 1 - i
  {
    if i >= |data| {
      assert emitted + [] == emitted;
    } else {
      var j := RunEnd(data, i, i + 1);
      var next := j + 1;
      assert i < j <= |data| && 1 <= next <= |data| + 1;
      var step := ScanStep(data, i, j);
      ScanAfterUnfold(data, emitted, i, j);
      ScanUnfold(data, i, j);
      ScanAfterIsScan(data, emitted + step, next);
      AppendChain(emitted, step, Scan(data, next), Scan(data, i), emitted + Scan(data, i));
    }
  }

  /** A non-empty sequence is its front followed by its last element. */
  lemma SplitLast<T>(xs: seq<T>)
    requires |xs| >= 1
    ensures xs[..|xs| - 1] + [xs[|xs| - 1]] == xs
  {
  }

  /** Regrouping a concatenation: if prefix + middle == whole and middle == front + back, then (prefix + front) + back == whole. */
  lemma AppendChain<T>(prefix: seq<T>, front: seq<T>, back: seq<T>, middle: seq<T>, whole: seq<T>)
    requires prefix + middle == whole && middle == front + back
    ensures (prefix + front) + back == whole
  {
    assert (prefix + front) + back == prefix + (front + back);
  }

  /** A byte that differs from the one before by d (mod 256) continues the progression. */
  lemma ModStep(prev: byte, next: byte, d: byte, x: int)
    requires prev == x % 256 && (next as int - prev as int) % 256 == d
    ensures next == (x + d as int) % 256
  {
    var q := (next as int - prev as int) / 256;
    assert next as int - prev as int == 256 * q + d as int;
    assert x == 256 * (x / 256) + prev;
    assert x + d as int == 256 * (x / 256 - q) + next;
  }

  /** Inside a stretch of constant difference d, the byte t places after data[lo] is data[lo] + t * d (mod 256). */
  lemma {:induction false} ProgressionAt(data: seq<byte>, lo: nat, d: byte, t: nat)
    requires lo + t < |data|
    requires forall k :: lo < k <= lo + t ==> Delta(data, k) == d
    ensures data[lo + t] == (data[lo] as int + t * d as int) % 256
    decreases t
  {
    if t > 0 {
      ProgressionAt(data, lo, d, t - 1);
      assert Delta(data, lo + t) == d;
      ModStep(data[lo + t - 1], data[lo + t], d, data[lo] as int + (t - 1) * d as int);
      assert data[lo] as int + (t - 1) * d as int + d as int == data[lo] as int + t * d as int;
    }
  }

  /** A DeltaIter run started at data[lo] reproduces data as long as the difference stays d. */
  lemma ProgressionRun(data: seq<byte>, lo: nat, m: nat, d: byte)
    requires lo < |data| && lo + m <= |data|
    requires forall k :: lo < k < lo + m ==> Delta(data, k) == d
    ensures DeltaIterRun(data[lo], m, d) == data[lo..lo + m]
  {
    forall t | 0 <= t < m
      ensures DeltaIterRun(data[lo], m, d)[t] == data[lo + t]
    {
      ProgressionAt(data, lo, d, t);
    }
  }

  /**
   * The bytes one step of the scan reconstructs: a literal step gives back
   * data[i-1..j]; an instruction step gives back the first (j-i) mod 65536
   * bytes of the run from data[i-1], then the break byte data[j] when the
   * run stopped before the end.
   */
  function StepImage(data: seq<byte>, i: nat, j: nat): seq<byte>
    requires 1 <= i < j <= |data|
  {
    if j - i > GenerateCodeIfMoreBytesThanThis then
      data[i - 1..i - 1 + ToUShort(j - i)] + (if j != |data| then [data[j]] else [])
    else
      data[i - 1..j]
  }

  /** The bytes the scan from cursor i reconstructs, step by step. */
  function ScanImage(data: seq<byte>, i: nat): seq<byte>
    requires 1 <= i <= |data| + 1
    decreases |data| + 1 - i
  {
    if i >= |data| then []
    else
      var j := RunEnd(data, i, i + 1);
      StepImage(data, i, j) + ScanImage(data, j + 1)
  }

  lemma ScanImageUnfold(data: seq<byte>, i: nat, j: nat)
    requires 1 <= i < |data| && j == RunEnd(data, i, i + 1)
    ensures ScanImage(data, i) == StepImage(data, i, j) + ScanImage(data, j + 1)
  {
    assert i < j <= |data|;
    var whole := ScanImage(data, i);
    var parts := StepImage(data, i, j) + ScanImage(data, j + 1);
    assert whole == parts;
  }

  /** What the emissions of one step stand for is the step's image. */
  lemma StepMeaning(data: seq<byte>, i: nat, j: nat)
    requires 1 <= i < |data| && j == RunEnd(data, i, i + 1)
    ensures EmissionsMeaning(ScanStep(data, i, j)) == StepImage(data, i, j)
  {
    var step := ScanStep(data, i, j);
    if j - i > GenerateCodeIfMoreBytesThanThis {
      RunEndBreaks(data, i, i + 1);
      ProgressionRun(data, i - 1, ToUShort(j - i), Delta(data, i));
      assert EmissionsMeaning(step[1..]) == (if j != |data| then [data[j]] else []);
    } else {
      assert EmissionsMeaning(step) == data[i - 1..j] + [];
    }
  }

  /**
   * The threshold rule: a step emits an instruction exactly when more than
   * GenerateCodeIfMoreBytesThanThis bytes follow the anchor, with the
   * anchor as start value, the count cast to 16 bits and the anchor's
   * difference; otherwise it emits the contiguous slice data[i-1..j] of at
   * most eleven bytes as literal data.
   */
  lemma ScanStepShape(data: seq<byte>, i: nat, j: nat)
    requires 1 <= i < j <= |data|
    ensures var step := ScanStep(data, i, j);
      && (step[0].Instruction? <==> j - i > GenerateCodeIfMoreBytesThanThis)
      && (step[0].Instruction? ==>
            && step[0] == Instruction(data[i - 1], (j - i) % 0x1_0000, Delta(data, i))
            && Frame(step[0]) == GetHeader(Code, InstructionSize) + [DeltaIter, data[i - 1]]
                                 + U16Bytes((j - i) % 0x1_0000) + [Delta(data, i)]
            && step[1..] == (if j != |data| then [Literal([data[j]])] else []))
      && (step[0].Literal? ==>
            && step == [Literal(data[i - 1..j])]
            && |data[i - 1..j]| == j - i + 1 <= GenerateCodeIfMoreBytesThanThis + 1)
  {
  }

  /** What the scan's emissions stand for is the scan's image. */
  lemma {:induction false} ScanMeaning(data: seq<byte>, i: nat)
    requires 1 <= i <= |data| + 1
    ensures EmissionsMeaning(Scan(data, i)) == ScanImage(data, i)
    decreases |data| + 1 - i
  {
    if i < |data| {
      var j := RunEnd(data, i, i + 1);
      var next := j + 1;
      assert i < j <= |data| && 1 <= next <= |data| + 1;
      ScanMeaning(data, next);
      StepMeaning(data, i, j);
      EmissionsMeaningAppend(ScanStep(data, i, j), Scan(data, next));
      ScanUnfold(data, i, j);
      ScanImageUnfold(data, i, j);
    }
  }

  // ---------------------------------------------------------------------
  // Compression: the coalescing pass, as specification functions
  // ---------------------------------------------------------------------

  /** The sections that take the place of a merged pair. */
  function Pieces(result: MergeResult): seq<seq<byte>>
  {
    [result.merged] + (if result.overflow.Some? then [result.overflow.value] else [])
  }

  /**
   * The coalescing pass with the sections before the cursor in done and
   * those from the cursor on in rest: the section at the cursor is merged
   * into the last done one when their types agree.
   */
  function CoalesceInto(done: seq<seq<byte>>, rest: seq<seq<byte>>): seq<seq<byte>>
    requires |done| >= 1 && AllSections(done) && AllSections(rest)
    decreases |rest|
  {
    if rest == [] then done
    else
      var last := done[|done| - 1];
      var next := rest[0];
      if GetSectionType(next) == GetSectionType(last) then
        var result := MergeSectionsAsMuchAsPossible(last, next).value;
        CoalesceInto(done[..|done| - 1] + Pieces(result), rest[1..])
      else
        CoalesceInto(done + [next], rest[1..])
  }

  function Coalesce(sections: seq<seq<byte>>): seq<seq<byte>>
    requires AllSections(sections)
  {
    if sections == [] then [] else CoalesceInto(sections[..1], sections[1..])
  }

  /** A one-section list stands for what its section stands for. */
  lemma MeaningSingle(s: seq<byte>)
    requires WellFormed(s)
    ensures AllWellFormed([s]) && Meaning([s]) == SectionMeaning(s)
  {
    assert [s][1..] == [];
    assert SectionMeaning(s) + [] == SectionMeaning(s);
  }

  /**
   * Merging two well-formed sections of one type yields well-formed
   * sections of that type that stand for the same bytes; an overflow
   * appears only after a full merged section.
   */
  lemma MergePieces(one: seq<byte>, two: seq<byte>)
    requires WellFormed(one) && WellFormed(two) && GetSectionType(one) == GetSectionType(two)
    ensures MergeSectionsAsMuchAsPossible(one, two).Ok?
    ensures var pieces := Pieces(MergeSectionsAsMuchAsPossible(one, two).value);
      && AllWellFormed(pieces)
      && Meaning(pieces) == SectionMeaning(one) + SectionMeaning(two)
      && (forall k :: 0 <= k < |pieces| ==> GetSectionType(pieces[k]) == GetSectionType(one))
      && (|pieces| == 2 ==> GetSectionLength(pieces[0]) == MaxSectionLength)
  {
    var r := MergeSectionsAsMuchAsPossible(one, two).value;
    if GetSectionLength(one) + GetSectionLength(two) <= MaxSectionLength {
      MergeFitsMeaning(one, two);
      MeaningSingle(r.merged);
    } else {
      MergeOverflowMeaning(one, two);
      MeaningSingle(r.overflow.value);
      MeaningAppend([r.merged], [r.overflow.value]);
      MeaningSingle(r.merged);
    }
  }

  /** A merge that fits gives one well-formed section standing for both payloads. */
  lemma MergeFitsMeaning(one: seq<byte>, two: seq<byte>)
    requires WellFormed(one) && WellFormed(two) && GetSectionType(one) == GetSectionType(two)
    requires GetSectionLength(one) + GetSectionLength(two) <= MaxSectionLength
    ensures var r := MergeSectionsAsMuchAsPossible(one, two);
      && r.Ok? && r.value.overflow.None?
      && WellFormed(r.value.merged)
      && GetSectionType(r.value.merged) == GetSectionType(one)
      && SectionMeaning(r.value.merged) == SectionMeaning(one) + SectionMeaning(two)
  {
    var d1, d2 := GetSectionData(one), GetSectionData(two);
    MergeFits(one, two);
    var merged := MakeSection(GetSectionType(one), d1 + d2).value;
    assert GetSectionData(merged) == d1 + d2;
    if GetSectionType(one) == Code {
      CodeAppend(d1, d2);
    }
  }

  /** A merge that overflows gives a full section and a remainder, both well formed, standing for both payloads. */
  lemma MergeOverflowMeaning(one: seq<byte>, two: seq<byte>)
    requires WellFormed(one) && WellFormed(two) && GetSectionType(one) == GetSectionType(two)
    requires GetSectionLength(one) + GetSectionLength(two) > MaxSectionLength
    ensures var r := MergeSectionsAsMuchAsPossible(one, two);
      && r.Ok? && r.value.overflow.Some?
      && WellFormed(r.value.merged) && WellFormed(r.value.overflow.value)
      && GetSectionType(r.value.merged) == GetSectionType(r.value.overflow.value) == GetSectionType(one)
      && GetSectionLength(r.value.merged) == MaxSectionLength
      && SectionMeaning(r.value.merged) + SectionMeaning(r.value.overflow.value)
         == SectionMeaning(one) + SectionMeaning(two)
  {
    MergeOverflow(one, two);
    var r := MergeSectionsAsMuchAsPossible(one, two).value;
    var d1, d2 := GetSectionData(one), GetSectionData(two);
    var m, o := GetSectionData(r.merged), GetSectionData(r.overflow.value);
    var whole := d1 + d2;
    assert m + o == whole && |m| == MaxSectionLength;
    assert m == whole[..MaxSectionLength] && o == whole[MaxSectionLength..];
    if GetSectionType(one) == Code {
      CodeAppend(d1, d2);
      CodeSplit(whole, MaxSectionLength);
      CodeAppend(m, o);
    }
  }

  /** Neighbouring sections share a type only where the first of the two is full. */
  predicate Packed(sections: seq<seq<byte>>)
    requires AllSections(sections)
  {
    forall k :: 1 <= k < |sections| && GetSectionType(sections[k - 1]) == GetSectionType(sections[k]) ==>
      GetSectionLength(sections[k - 1]) == MaxSectionLength
  }

  lemma PackedSnoc(sections: seq<seq<byte>>, s: seq<byte>)
    requires AllSections(sections) && IsSection(s) && Packed(sections)
    requires |sections| >= 1 && GetSectionType(sections[|sections| - 1]) == GetSectionType(s) ==>
      GetSectionLength(sections[|sections| - 1]) == MaxSectionLength
    ensures AllSections(sections + [s]) && Packed(sections + [s])
  {
    var t := sections + [s];
    forall k | 1 <= k < |t| && GetSectionType(t[k - 1]) == GetSectionType(t[k])
      ensures GetSectionLength(t[k - 1]) == MaxSectionLength
    {
      if k < |sections| {
        assert t[k - 1] == sections[k - 1] && t[k] == sections[k];
      }
    }
  }

  lemma PackedPrefix(sections: seq<seq<byte>>, n: nat)
    requires AllSections(sections) && Packed(sections) && n <= |sections|
    ensures AllSections(sections[..n]) && Packed(sections[..n])
  {
    var t := sections[..n];
    forall k | 1 <= k < |t| && GetSectionType(t[k - 1]) == GetSectionType(t[k])
      ensures GetSectionLength(t[k - 1]) == MaxSectionLength
    {
      assert t[k - 1] == sections[k - 1] && t[k] == sections[k];
    }
  }

  /** Replacing the last section by the pieces of merging it with the next one keeps the list well formed and its meaning. */
  lemma MergeIntoDone(done: seq<seq<byte>>, next: seq<byte>)
    requires |done| >= 1 && AllWellFormed(done) && WellFormed(next)
    requires GetSectionType(done[|done| - 1]) == GetSectionType(next)
    ensures MergeSectionsAsMuchAsPossible(done[|done| - 1], next).Ok?
    ensures var merged := done[..|done| - 1] + Pieces(MergeSectionsAsMuchAsPossible(done[|done| - 1], next).value);
      && |merged| >= 1 && AllWellFormed(merged) && AllSections(merged)
      && Meaning(merged) == Meaning(done) + SectionMeaning(next)
  {
    var last := done[|done| - 1];
    var front := done[..|done| - 1];
    MergePieces(last, next);
    var pieces := Pieces(MergeSectionsAsMuchAsPossible(last, next).value);
    assert AllWellFormed(front);
    SplitLast(done);
    MeaningAppend(front, [last]);
    MeaningSingle(last);
    MeaningAppend(front, pieces);
    WellFormedAppend(front, pieces);
    AppendChain(Meaning(front), SectionMeaning(last), SectionMeaning(next), Meaning(pieces), Meaning(front + pieces));
  }

  /** The same replacement keeps the list packed. */
  lemma MergeIntoDonePacked(done: seq<seq<byte>>, next: seq<byte>)
    requires |done| >= 1 && AllWellFormed(done) && AllSections(done) && Packed(done) && WellFormed(next)
    requires GetSectionType(done[|done| - 1]) == GetSectionType(next)
    ensures MergeSectionsAsMuchAsPossible(done[|done| - 1], next).Ok?
    ensures var merged := done[..|done| - 1] + Pieces(MergeSectionsAsMuchAsPossible(done[|done| - 1], next).value);
      AllSections(merged) && Packed(merged)
  {
    var last := done[|done| - 1];
    var front := done[..|done| - 1];
    MergePieces(last, next);
    var pieces := Pieces(MergeSectionsAsMuchAsPossible(last, next).value);
    PackedPrefix(done, |done| - 1);
    if |front| >= 1 && GetSectionType(front[|front| - 1]) == GetSectionType(pieces[0]) {
      assert done[|done| - 2] == front[|front| - 1];
    }
    PackedSnoc(front, pieces[0]);
    if |pieces| == 2 {
      assert (front + [pieces[0]])[|front|] == pieces[0];
      PackedSnoc(front + [pieces[0]], pieces[1]);
      AppendChain(front, [pieces[0]], [pieces[1]], pieces, front + pieces);
    } else {
      assert pieces == [pieces[0]];
    }
  }

  /**
   * The coalescing pass keeps every section well formed, keeps the bytes
   * the list stands for, and leaves it packed.
   */
  lemma {:induction false} CoalesceIntoKeeps(done: seq<seq<byte>>, rest: seq<seq<byte>>)
    requires |done| >= 1 && AllWellFormed(done) && AllSections(done) && Packed(done)
    requires AllWellFormed(rest) && AllSections(rest)
    ensures var result := CoalesceInto(done, rest);
      && AllWellFormed(result) && AllSections(result) && Packed(result)
      && Meaning(result) == Meaning(done) + Meaning(rest)
    decreases |rest|
  {
    if rest == [] {
      assert Meaning(done) + [] == Meaning(done);
    } else {
      var last := done[|done| - 1];
      var next := rest[0];
      assert AllWellFormed(rest[1..]) && AllSections(rest[1..]);
      assert Meaning(rest) == SectionMeaning(next) + Meaning(rest[1..]);
      if GetSectionType(next) == GetSectionType(last) {
        MergeIntoDone(done, next);
        MergeIntoDonePacked(done, next);
        var merged := done[..|done| - 1] + Pieces(MergeSectionsAsMuchAsPossible(last, next).value);
        CoalesceIntoKeeps(merged, rest[1..]);
      } else {
        MeaningSingle(next);
        MeaningAppend(done, [next]);
        PackedSnoc(done, next);
        CoalesceIntoKeeps(done + [next], rest[1..]);
      }
      AppendChain(Meaning(done), SectionMeaning(next), Meaning(rest[1..]), Meaning(rest), Meaning(done) + Meaning(rest));
    }
  }

  lemma CoalesceKeeps(sections: seq<seq<byte>>)
    requires AllWellFormed(sections) && AllSections(sections)
    ensures var result := Coalesce(sections);
      && AllWellFormed(result) && AllSections(result) && Packed(result)
      && Meaning(result) == Meaning(sections)
      && (|result| == 0 <==> |sections| == 0)
  {
    if sections != [] {
      assert sections[..1] + sections[1..] == sections;
      MeaningAppend(sections[..1], sections[1..]);
      CoalesceIntoKeeps(sections[..1], sections[1..]);
      CoalesceNonEmpty(sections[..1], sections[1..]);
    }
  }

  lemma {:induction false} CoalesceNonEmpty(done: seq<seq<byte>>, rest: seq<seq<byte>>)
    requires |done| >= 1 && AllSections(done) && AllSections(rest)
    ensures |CoalesceInto(done, rest)| >= 1
    decreases |rest|
  {
    if rest != [] {
      var last := done[|done| - 1];
      var next := rest[0];
      if GetSectionType(next) == GetSectionType(last) {
        var r := MergeSectionsAsMuchAsPossible(last, next).value;
        assert AllSections(done[..|done| - 1] + Pieces(r));
        CoalesceNonEmpty(done[..|done| - 1] + Pieces(r), rest[1..]);
      } else {
        CoalesceNonEmpty(done + [next], rest[1..]);
      }
    }
  }

  /** After coalescing, every Code payload is still a whole number of instructions. */
  lemma CoalescedCodeAligned(sections: seq<seq<byte>>)
    requires AllWellFormed(sections) && AllSections(sections)
    ensures AllSections(Coalesce(sections))
    ensures var result := Coalesce(sections);
      forall k :: 0 <= k < |result| && GetSectionType(result[k]) == Code ==>
        GetSectionLength(result[k]) % InstructionSize == 0
  {
    CoalesceKeeps(sections);
    var result := Coalesce(sections);
    forall k | 0 <= k < |result| && GetSectionType(result[k]) == Code
      ensures GetSectionLength(result[k]) % InstructionSize == 0
    {
      assert WellFormed(result[k]);
      CodeAligned(GetSectionData(result[k]));
    }
  }

  /** The stream Compress returns. */
  function Compressed(data: seq<byte>): seq<byte>
  {
    if |data| < 2 then MakeSection(Data, data).value
    else
      ScanNonEmpty(data, 1);
      FrameAllMeaning(Scan(data, 1));
      Concat(Coalesce(FrameAll(Scan(data, 1))))
  }

  // ---------------------------------------------------------------------
  // Compression: the method
  // ---------------------------------------------------------------------

  /** The inner search of the scan: the first j after i + 1 whose difference departs from searchDelta. */
  method FindRunEnd(data: seq<byte>, i: nat, searchDelta: byte) returns (j: nat)
    requires 1 <= i < |data| && searchDelta == Delta(data, i)
    ensures j == RunEnd(data, i, i + 1)
  {
    j := i + 1;
    while j < |data|
      invariant i + 1 <= j <= |data|
      invariant RunEnd(data, i, j) == RunEnd(data, i, i + 1)
    {
      var thisDelta := (data[j] as int - data[j - 1] as int) % 256;
      if thisDelta != searchDelta {
        break;
      }
      j := j + 1;
    }
  }

  /** The body of one scan step: the sections emitted for the run anchored at data[i-1] that breaks at j. */
  method EmitRun(data: seq<byte>, i: nat, j: nat, searchDelta: byte) returns (emitted: seq<seq<byte>>)
    requires 1 <= i < j <= |data| && searchDelta == Delta(data, i)
    ensures emitted == FrameAll(ScanStep(data, i, j))
  {
    var numberOfCompressableBytes := j - i;
    if numberOfCompressableBytes > GenerateCodeIfMoreBytesThanThis {
      var start := i - 1;
      var addIterCode := DeltaIterCode(data[start], ToUShort(numberOfCompressableBytes), searchDelta);
      emitted := [MakeSection(Code, addIterCode).value];
      if j != |data| {
        emitted := emitted + [MakeSection(Data, [data[j]]).value];
      }
    } else {
      emitted := [MakeSection(Data, data[i - 1..j]).value];
    }
    ghost var step := ScanStep(data, i, j);
    assert FrameAll(step) == [Frame(step[0])] + FrameAll(step[1..]);
    if |step| == 2 {
      assert FrameAll(step[1..]) == [Frame(step[1])] + FrameAll(step[1..][1..]);
      assert step[1..][1..] == [];
    } else {
      assert step[1..] == [];
    }
  }

  /** The first loop of Compress: scan the data run by run, appending each step's sections. */
  method ScanRuns(data: seq<byte>) returns (sections: seq<seq<byte>>)
    requires |data| >= 2
    ensures sections == FrameAll(Scan(data, 1))
  {
    sections := [];
    ghost var emissions: seq<Emission> := [];
    ghost var whole := ScanAfter(data, [], 1);
    var i := 1;
    while i < |data|
      invariant 1 <= i <= |data| + 1
      invariant sections == FrameAll(emissions)
      invariant ScanAfter(data, emissions, i) == whole
      decreases |data| + 1 - i
    {
      ghost var cursor, before := i, emissions;
      var searchDelta := (data[i] as int - data[i - 1] as int) % 256;
      var j := FindRunEnd(data, i, searchDelta);
      var numberOfCompressableBytes := j - i;
      var emitted := EmitRun(data, i, j, searchDelta);
      FrameAllAppend(emissions, ScanStep(data, i, j));
      sections := sections + emitted;
      emissions := emissions + ScanStep(data, i, j);
      i := i + numberOfCompressableBytes;
      i := i + 1;
      ScanAdvance(data, before, cursor, j, i, whole);
    }
    ScanAfterIsScan(data, [], 1);
    assert [] + Scan(data, 1) == Scan(data, 1);
  }

  /** Overwriting the pair at i-1 and i: the front now ends with the new pair, the back is unchanged. */
  lemma ReplacePair<T>(s: seq<T>, i: nat, first: T, second: T)
    requires 1 <= i < |s|
    ensures s[i - 1 := first][i := second][..i + 1] == s[..i - 1] + [first, second]
    ensures s[i - 1 := first][i := second][i + 1..] == s[i + 1..]
  {
  }

  /** Overwriting s[i-1] and dropping s[i]: the front now ends with the new element, the back is unchanged. */
  lemma ReplaceAndRemove<T>(s: seq<T>, i: nat, first: T)
    requires 1 <= i < |s|
    ensures s[i - 1 := first][..i] + s[i - 1 := first][i + 1..] == s[..i - 1] + [first] + s[i + 1..]
    ensures (s[..i - 1] + [first] + s[i + 1..])[..i] == s[..i - 1] + [first]
    ensures (s[..i - 1] + [first] + s[i + 1..])[i..] == s[i + 1..]
  {
  }

  /** A list of sections is its front and back; it is all sections when both parts are. */
  lemma SectionsSplit(sections: seq<seq<byte>>, n: nat)
    requires n <= |sections| && AllSections(sections[..n]) && AllSections(sections[n..])
    ensures AllSections(sections)
  {
    forall k | 0 <= k < |sections|
      ensures IsSection(sections[k])
    {
      if k < n {
        assert sections[k] == sections[..n][k];
      } else {
        assert sections[k] == sections[n..][k - n];
      }
    }
  }

  /** One merging step of the coalescing pass, stated on its arguments. */
  lemma CoalesceIntoMerged(done: seq<seq<byte>>, rest: seq<seq<byte>>, whole: seq<seq<byte>>)
    requires |done| >= 1 && AllSections(done) && AllSections(rest) && rest != []
    requires GetSectionType(rest[0]) == GetSectionType(done[|done| - 1])
    requires CoalesceInto(done, rest) == whole
    ensures MergeSectionsAsMuchAsPossible(done[|done| - 1], rest[0]).Ok?
    ensures var merged := done[..|done| - 1] + Pieces(MergeSectionsAsMuchAsPossible(done[|done| - 1], rest[0]).value);
      AllSections(merged) && AllSections(rest[1..]) && CoalesceInto(merged, rest[1..]) == whole
  {
  }

  /** One step of the coalescing pass that keeps the section at the cursor as it is. */
  lemma CoalesceIntoKept(done: seq<seq<byte>>, rest: seq<seq<byte>>, whole: seq<seq<byte>>)
    requires |done| >= 1 && AllSections(done) && AllSections(rest) && rest != []
    requires GetSectionType(rest[0]) != GetSectionType(done[|done| - 1])
    requires CoalesceInto(done, rest) == whole
    ensures AllSections(done + [rest[0]]) && AllSections(rest[1..]) && CoalesceInto(done + [rest[0]], rest[1..]) == whole
  {
  }

  /** The second loop of Compress: merge each section into its predecessor when their types agree, in place. */
  method CoalesceRuns(scanned: seq<seq<byte>>) returns (sections: seq<seq<byte>>)
    requires |scanned| >= 1 && AllSections(scanned)
    ensures sections == Coalesce(scanned)
  {
    sections := scanned;
    var i := 1;
    while i < |sections|
      invariant 1 <= i <= |sections|
      invariant AllSections(sections)
      invariant CoalesceInto(sections[..i], sections[i..]) == Coalesce(scanned)
      decreases |sections| - i
    {
      sections, i := CoalesceAt(sections, i);
    }
    assert sections[..i] == sections && sections[i..] == [];
  }

  /**
   * The body of the coalescing loop at cursor i: when sections[i] has the
   * type of sections[i-1], the two are replaced by the merge (one or two
   * sections); the cursor then moves to the section after the merge.
   */
  method CoalesceAt(sections: seq<seq<byte>>, i: nat) returns (after: seq<seq<byte>>, next: nat)
    requires 1 <= i < |sections| && AllSections(sections)
    ensures 1 <= next <= |after| && |after| - next < |sections| - i
    ensures AllSections(after)
    ensures CoalesceInto(after[..next], after[next..]) == CoalesceInto(sections[..i], sections[i..])
  {
    if GetSectionType(sections[i]) == GetSectionType(sections[i - 1]) {
      after, next := MergeAt(sections, i);
    } else {
      ghost var done, rest := sections[..i], sections[i..];
      assert rest[0] == sections[i] && rest[1..] == sections[i + 1..];
      assert done[|done| - 1] == sections[i - 1];
      CoalesceIntoKept(done, rest, CoalesceInto(done, rest));
      assert sections[..i + 1] == done + [rest[0]];
      after, next := sections, i + 1;
    }
  }

  /** The merging branch of the coalescing loop: sections[i-1] and sections[i] are replaced by their merge, in place. */
  method MergeAt(sections: seq<seq<byte>>, i: nat) returns (after: seq<seq<byte>>, next: nat)
    requires 1 <= i < |sections| && AllSections(sections)
    requires GetSectionType(sections[i]) == GetSectionType(sections[i - 1])
    ensures 1 <= next <= |after| && |after| - next < |sections| - i
    ensures AllSections(after)
    ensures CoalesceInto(after[..next], after[next..]) == CoalesceInto(sections[..i], sections[i..])
  {
    ghost var done, rest := sections[..i], sections[i..];
    assert rest[0] == sections[i] && rest[1..] == sections[i + 1..];
    assert done[|done| - 1] == sections[i - 1] && done[..|done| - 1] == sections[..i - 1];
    var merge := MergeSectionsAsMuchAsPossible(sections[i - 1], sections[i]).value;
    CoalesceIntoMerged(done, rest, CoalesceInto(done, rest));
    after, next := sections[i - 1 := merge.merged], i;
    if merge.overflow.Some? {
      after := after[i := merge.overflow.value];
      ReplacePair(sections, i, merge.merged, merge.overflow.value);
      assert Pieces(merge) == [merge.merged, merge.overflow.value];
      SectionsSplit(after, i + 1);
    } else {
      after := after[..i] + after[i + 1..];
      ReplaceAndRemove(sections, i, merge.merged);
      assert Pieces(merge) == [merge.merged];
      SectionsSplit(after, i);
      next := next - 1;
    }
    next := next + 1;
  }

  method Compress(data: seq<byte>) returns (compressed: seq<byte>)
    ensures compressed == Compressed(data)
  {
    if |data| < 2 {
      return MakeSection(Data, data).value;
    }
    var scanned := ScanRuns(data);
    ScanNonEmpty(data, 1);
    FrameAllMeaning(Scan(data, 1));
    var sections := CoalesceRuns(scanned);
    compressed := ConcatSections(sections);
  }

  /** The last loop of Compress: the sections written one after the other. */
  method ConcatSections(sections: seq<seq<byte>>) returns (compressed: seq<byte>)
    ensures compressed == Concat(sections)
  {
    compressed := [];
    for k := 0 to |sections|
      invariant compressed == Concat(sections[..k])
    {
      ConcatAppend(sections[..k], [sections[k]]);
      assert sections[..k + 1] == sections[..k] + [sections[k]];
      assert Concat([sections[k]]) == sections[k];
      compressed := compressed + sections[k];
    }
    assert sections[..|sections|] == sections;
  }

  // ---------------------------------------------------------------------
  // What Decompress gives back for what Compress produced
  // ---------------------------------------------------------------------

  /**
   * Decompressing the output of Compress succeeds and gives back the
   * scan's image: the input itself when it is shorter than two bytes.
   */
  lemma CompressDecompress(data: seq<byte>)
    ensures Decoded(Compressed(data)) == Ok(if |data| < 2 then data else ScanImage(data, 1))
  {
    if |data| < 2 {
      var s := MakeSection(Data, data).value;
      assert WellFormed(s);
      DecodeSection(s);
    } else {
      var emissions := Scan(data, 1);
      var framed := FrameAll(emissions);
      FrameAllMeaning(emissions);
      CoalesceKeeps(framed);
      DecodeSections(Coalesce(framed));
      ScanMeaning(data, 1);
    }
  }

  /** The scan never reconstructs more bytes than it was given. */
  lemma {:induction false} ScanImageLength(data: seq<byte>, i: nat)
    requires 1 <= i <= |data| + 1
    ensures |ScanImage(data, i)| <= |data| + 1 - i
    decreases |data| + 1 - i
  {
    if i < |data| {
      var j := RunEnd(data, i, i + 1);
      var next := j + 1;
      assert i < j <= |data| && 1 <= next <= |data| + 1;
      ScanImageLength(data, next);
      ScanImageUnfold(data, i, j);
    }
  }

  /** So the output of Decompress is never longer than what was compressed. */
  lemma DecompressedNoLonger(data: seq<byte>)
    ensures Decoded(Compressed(data)).Ok? && |Decoded(Compressed(data)).value| <= |data|
  {
    CompressDecompress(data);
    if |data| >= 2 {
      ScanImageLength(data, 1);
    }
  }

  /**
   * Every step of the scan from cursor i on emits literal bytes, and the
   * last step reaches the end of the data.
   */
  predicate LiteralOnlyFrom(data: seq<byte>, i: nat)
    requires 1 <= i <= |data| + 1
    decreases |data| + 1 - i
  {
    if i > |data| then true
    else if i == |data| then false
    else
      var j := RunEnd(data, i, i + 1);
      j - i <= GenerateCodeIfMoreBytesThanThis && LiteralOnlyFrom(data, j + 1)
  }

  /** A scan that emits only literals reconstructs the data from the cursor's anchor on. */
  lemma {:induction false} LiteralOnlyImage(data: seq<byte>, i: nat)
    requires 1 <= i <= |data| + 1 && LiteralOnlyFrom(data, i)
    ensures ScanImage(data, i) == data[i - 1..]
    decreases |data| + 1 - i
  {
    if i <= |data| {
      var j := RunEnd(data, i, i + 1);
      var next := j + 1;
      assert i < j <= |data| && 1 <= next <= |data| + 1;
      LiteralOnlyImage(data, next);
      ScanImageUnfold(data, i, j);
      assert data[i - 1..j] + data[j..] == data[i - 1..];
    }
  }

  /** Data without runs long enough for an instruction, whose last step reaches the end, round-trips. */
  lemma LiteralOnlyRoundTrip(data: seq<byte>)
    requires |data| >= 2 && LiteralOnlyFrom(data, 1)
    ensures Decoded(Compressed(data)) == Ok(data)
  {
    CompressDecompress(data);
    LiteralOnlyImage(data, 1);
  }

  /** A run of equal differences that reaches the end of the data ends there. */
  lemma {:induction false} RunEndAtEnd(data: seq<byte>, i: nat, j: nat)
    requires 1 <= i < j <= |data|
    requires forall k :: j <= k < |data| ==> Delta(data, k) == Delta(data, i)
    ensures RunEnd(data, i, j) == |data|
    decreases |data| - j
  {
    if j < |data| {
      RunEndAtEnd(data, i, j + 1);
    }
  }

  /**
   * A progression of 12 to 65536 bytes is one run that reaches the end:
   * its instruction counts one byte fewer than the run holds, so the last
   * byte is lost.
   */
  lemma ProgressionLosesLastByte(data: seq<byte>)
    requires 12 <= |data| <= 0x1_0000
    requires forall k :: 1 <= k < |data| ==> Delta(data, k) == Delta(data, 1)
    ensures Compressed(data) == GetHeader(Code, InstructionSize) + DeltaIterCode(data[0], |data| - 1, Delta(data, 1))
    ensures Decoded(Compressed(data)) == Ok(data[..|data| - 1])
  {
    var n := |data|;
    RunEndAtEnd(data, 1, 2);
    var e := Instruction(data[0], n - 1, Delta(data, 1));
    ScanUnfold(data, 1, n);
    assert Scan(data, n + 1) == [];
    assert Scan(data, 1) == [e] + [];
    var section := Frame(e);
    assert FrameAll([e]) == [section] + [];
    assert Coalesce([section]) == [section];
    assert Concat([section]) == section + [];
    CompressDecompress(data);
    ScanImageUnfold(data, 1, n);
    assert ScanImage(data, n + 1) == [];
    assert ToUShort(n - 1) == n - 1;
    assert StepImage(data, 1, n) == data[0..n - 1] + [];
    assert data[0..n - 1] == data[..n - 1];
    assert ScanImage(data, 1) == data[..n - 1];
  }

  /** Twelve bytes 7 compress to one instruction of count 11 and decompress to eleven. */
  lemma TwelveEqualBytes(data: seq<byte>)
    requires |data| == 12 && forall k :: 0 <= k < |data| ==> data[k] == 7
    ensures Compressed(data) == [Code, InstructionSize, 0, DeltaIter, 7, 11, 0, 0]
    ensures Decoded(Compressed(data)) == Ok(data[..11])
  {
    assert forall k :: 1 <= k < |data| ==> Delta(data, k) == 0;
    assert Delta(data, 1) == 0;
    ProgressionLosesLastByte(data);
    var header := GetHeader(Code, InstructionSize);
    var code := DeltaIterCode(7, 11, 0);
    assert header == [Code, InstructionSize, 0];
    assert code == [DeltaIter, 7, 11, 0, 0];
  }

  /** When the last step stops one byte before the end, that byte is never emitted. */
  lemma LastByteDropped()
    ensures Decoded(Compressed([0, 1, 5])) == Ok([0, 1])
  {
    var data: seq<byte> := [0, 1, 5];
    assert Delta(data, 2) != Delta(data, 1);
    assert RunEnd(data, 1, 2) == 2;
    CompressDecompress(data);
    ScanImageUnfold(data, 1, 2);
    assert ScanImage(data, 3) == [];
    assert StepImage(data, 1, 2) == [0, 1];
    assert ScanImage(data, 1) == [0, 1];
    assert Decoded(Compressed(data)) == Ok(ScanImage(data, 1));
  }

  /** An instruction step that stops before the end gives back the run less its last byte, then the break byte. */
  lemma StepImageBreak(data: seq<byte>, i: nat, j: nat)
    requires 1 <= i < j < |data| && GenerateCodeIfMoreBytesThanThis < j - i < 0x1_0000
    ensures StepImage(data, i, j) == data[i - 1..j - 1] + [data[j]]
  {
    assert ToUShort(j - i) == j - i;
  }

  /**
   * Twelve zeros, then 5 and 9: the instruction gives back eleven zeros,
   * the break byte 5 comes once as its own literal and once more as the
   * anchor of the next step.
   */
  lemma BreakByteTwice(data: seq<byte>)
    requires |data| == 14 && data[12] == 5 && data[13] == 9
    requires forall k :: 0 <= k < 12 ==> data[k] == 0
    ensures Decoded(Compressed(data)) == Ok(data[..11] + [5, 5, 9])
  {
    assert forall k :: 1 <= k < 12 ==> Delta(data, k) == 0;
    assert Delta(data, 12) == 5;
    RunEndBreaks(data, 1, 2);
    assert RunEnd(data, 1, 2) == 12;
    assert RunEnd(data, 13, 14) == 14;
    ScanImageUnfold(data, 13, 14);
    var tail := ScanImage(data, 13);
    assert ScanImage(data, 15) == [];
    assert data[12..14] == [5, 9];
    assert tail == [5, 9];
    ScanImageUnfold(data, 1, 12);
    StepImageBreak(data, 1, 12);
    var head := StepImage(data, 1, 12);
    assert data[0..11] == data[..11];
    assert head == data[..11] + [5];
    assert ScanImage(data, 1) == head + tail;
    assert (data[..11] + [5]) + [5, 9] == data[..11] + [5, 5, 9];
    CompressDecompress(data);
  }

  /**
   * A progression of 65548 bytes is one run: its count 65547 is cast to
   * 16 bits, so the instruction reconstructs only its first eleven bytes.
   */
  lemma CountWraps(data: seq<byte>)
    requires |data| == 65548
    requires forall k :: 1 <= k < |data| ==> Delta(data, k) == Delta(data, 1)
    ensures Decoded(Compressed(data)) == Ok(data[..11])
  {
    RunEndAtEnd(data, 1, 2);
    CompressDecompress(data);
    ScanImageUnfold(data, 1, 65548);
    assert ScanImage(data, 65549) == [];
    ToUShortWraps(65547);
    assert StepImage(data, 1, 65548) == data[0..11] + [];
    assert data[0..11] == data[..11];
    assert ScanImage(data, 1) == data[..11];
    assert Decoded(Compressed(data)) == Ok(ScanImage(data, 1));
  }

  // ---------------------------------------------------------------------
  // The scan as evidently intended
  // ---------------------------------------------------------------------

  /** The largest count a DeltaIter instruction can carry. */
  const MaxCount: nat := 0xFFFF

  /**
   * The scan as evidently intended, anchored at data[a]: a run covers the
   * anchor and every following byte of the same difference, at most
   * MaxCount bytes; the next run is anchored right after it, and a last
   * lone byte is emitted as literal data.
   */
  function CorrectedScan(data: seq<byte>, a: nat): seq<Emission>
    requires a <= |data|
    decreases |data| - a
  {
    if a == |data| then []
    else if a + 1 == |data| then [Literal([data[a]])]
    else [CorrectedStep(data, a)] + CorrectedScan(data, a + CorrectedRunLength(data, a))
  }

  /** The length of the run the corrected scan anchors at data[a]. */
  function CorrectedRunLength(data: seq<byte>, a: nat): (m: nat)
    requires a + 2 <= |data|
    ensures 2 <= m <= MaxCount && a + m <= |data|
  {
    var j := RunEnd(data, a + 1, a + 2);
    if j - a <= MaxCount then j - a else MaxCount
  }

  /** Every difference inside the corrected run is the one after the anchor. */
  lemma CorrectedRunConstant(data: seq<byte>, a: nat)
    requires a + 2 <= |data|
    ensures forall k :: a < k < a + CorrectedRunLength(data, a) ==> Delta(data, k) == Delta(data, a + 1)
  {
    RunEndBreaks(data, a + 1, a + 2);
  }

  /** What the corrected scan emits for the run anchored at data[a]. */
  function CorrectedStep(data: seq<byte>, a: nat): Emission
    requires a + 2 <= |data|
  {
    var m := CorrectedRunLength(data, a);
    if m - 1 > GenerateCodeIfMoreBytesThanThis then Instruction(data[a], m, Delta(data, a + 1))
    else Literal(data[a..a + m])
  }

  /** The corrected step stands for exactly the bytes of its run. */
  lemma CorrectedStepMeaning(data: seq<byte>, a: nat, m: nat, next: nat)
    requires a + 2 <= |data| && m == CorrectedRunLength(data, a) && next == a + m
    ensures EmissionsMeaning([CorrectedStep(data, a)]) == data[a..next]
  {
    var step := CorrectedStep(data, a);
    if m - 1 > GenerateCodeIfMoreBytesThanThis {
      CorrectedRunConstant(data, a);
      ProgressionRun(data, a, m, Delta(data, a + 1));
    }
    assert EmissionMeaning(step) == data[a..next];
    assert [step][1..] == [];
    assert EmissionsMeaning([step]) == EmissionMeaning(step) + [];
  }

  lemma CorrectedScanUnfold(data: seq<byte>, a: nat, m: nat, next: nat)
    requires a + 2 <= |data| && m == CorrectedRunLength(data, a) && next == a + m
    ensures next <= |data|
    ensures CorrectedScan(data, a) == [CorrectedStep(data, a)] + CorrectedScan(data, next)
  {
    var whole := CorrectedScan(data, a);
    var parts := [CorrectedStep(data, a)] + CorrectedScan(data, next);
    assert whole == parts;
  }

  /** What the corrected scan's emissions stand for is exactly the data from the anchor on. */
  lemma {:induction false} CorrectedScanMeaning(data: seq<byte>, a: nat)
    requires a <= |data|
    ensures EmissionsMeaning(CorrectedScan(data, a)) == data[a..]
    decreases |data| - a
  {
    if a == |data| {
      assert CorrectedScan(data, a) == [];
    } else if a + 1 == |data| {
      assert CorrectedScan(data, a) == [Literal([data[a]])];
      assert EmissionsMeaning([Literal([data[a]])]) == [data[a]] + [];
    } else {
      var m := CorrectedRunLength(data, a);
      var next := a + m;
      assert a + 2 <= |data| && a < next <= |data|;
      CorrectedScanMeaning(data, next);
      CorrectedScanAdvance(data, a, m, next);
    }
  }

  /** One step of the corrected scan: if the rest stands for the data after the run, the whole stands for the data from the anchor. */
  lemma CorrectedScanAdvance(data: seq<byte>, a: nat, m: nat, next: nat)
    requires a + 2 <= |data| && m == CorrectedRunLength(data, a) && next == a + m <= |data|
    requires EmissionsMeaning(CorrectedScan(data, next)) == data[next..]
    ensures EmissionsMeaning(CorrectedScan(data, a)) == data[a..]
  {
    var step := CorrectedStep(data, a);
    var rest := CorrectedScan(data, next);
    CorrectedScanUnfold(data, a, m, next);
    CorrectedStepMeaning(data, a, m, next);
    EmissionsMeaningAppend([step], rest);
    SliceJoin(data, a, next);
  }

  /** Compress with the corrected scan. */
  function CorrectedCompressed(data: seq<byte>): seq<byte>
  {
    if |data| < 2 then MakeSection(Data, data).value
    else
      FrameAllMeaning(CorrectedScan(data, 0));
      Concat(Coalesce(FrameAll(CorrectedScan(data, 0))))
  }

  /** With the corrected scan, every input round-trips. */
  lemma CorrectedRoundTrip(data: seq<byte>)
    ensures Decoded(CorrectedCompressed(data)) == Ok(data)
  {
    if |data| < 2 {
      var s := MakeSection(Data, data).value;
      assert WellFormed(s);
      DecodeSection(s);
    } else {
      var emissions := CorrectedScan(data, 0);
      var framed := FrameAll(emissions);
      FrameAllMeaning(emissions);
      CoalesceKeeps(framed);
      DecodeSections(Coalesce(framed));
      CorrectedScanMeaning(data, 0);
      assert data[0..] == data;
    }
  }
}
