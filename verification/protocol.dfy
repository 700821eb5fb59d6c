/**
 * Section framing: a section is a type byte, a two-byte little-endian
 * payload length, then the payload itself.
 */
module Protocol {
  import opened Types

  /** Opcode tag of the DeltaIter instruction (the only instruction). */
  const DeltaIter: byte := 0

  /**
   * A section type travels as its raw tag byte: casting a byte to the
   * enumeration accepts any value, so a stream may carry tags other than
   * the two named ones.
   */
  type SectionType = byte
  const Data: SectionType := 0
  const Code: SectionType := 1

  /** One type byte plus a 16-bit length. */
  const HeaderSize: nat := 3

  /** The largest payload a 16-bit length can describe. */
  const MaxSectionLength: nat := 0xFFFF

  function GetHeader(sectionType: byte, sectionLength: u16): (header: seq<byte>)
    ensures |header| == HeaderSize
    ensures header == [sectionType, sectionLength % 256, sectionLength / 256]
    ensures U16At(header, 1) == sectionLength
  {
    [sectionType] + U16Bytes(sectionLength)
  }

  function GetSectionType(sectionHeader: seq<byte>): SectionType
    requires |sectionHeader| >= 1
  {
    sectionHeader[0]
  }

  function GetSectionLength(sectionHeader: seq<byte>): u16
    requires |sectionHeader| >= HeaderSize
  {
    U16At(sectionHeader, 1)
  }

  /** The payload of a section found at the start of a buffer. */
  function GetSectionData(sectionDataAndMore: seq<byte>): (sectionData: seq<byte>)
    requires |sectionDataAndMore| >= HeaderSize
    requires HeaderSize + GetSectionLength(sectionDataAndMore) <= |sectionDataAndMore|
    ensures |sectionData| == GetSectionLength(sectionDataAndMore)
  {
    sectionDataAndMore[HeaderSize..HeaderSize + GetSectionLength(sectionDataAndMore)]
  }

  function GetSectionTypeAt(buf: seq<byte>, startIdx: nat): SectionType
    requires startIdx < |buf|
  {
    buf[startIdx]
  }

  function GetSectionLengthAt(buf: seq<byte>, startIdx: nat): u16
    requires startIdx + HeaderSize <= |buf|
  {
    U16At(buf, startIdx + 1)
  }

  /** The payload of the section whose header starts at buf[startIdx]. */
  function GetSectionDataAt(buf: seq<byte>, startIdx: nat): (sectionData: seq<byte>)
    requires startIdx + HeaderSize <= |buf|
    requires startIdx + HeaderSize + GetSectionLengthAt(buf, startIdx) <= |buf|
    ensures |sectionData| == GetSectionLengthAt(buf, startIdx)
  {
    buf[startIdx + HeaderSize..startIdx + HeaderSize + GetSectionLengthAt(buf, startIdx)]
  }

  /** A buffer holding exactly one section: its header and as many bytes as the header says. */
  predicate IsSection(s: seq<byte>)
  {
    |s| >= HeaderSize && |s| == HeaderSize + GetSectionLength(s)
  }

  predicate AllSections(sections: seq<seq<byte>>)
  {
    forall k :: 0 <= k < |sections| ==> IsSection(sections[k])
  }

  /** Builds a section, or reports (as None) that the payload does not fit a 16-bit length. */
  function TryMakeSection(sectionType: SectionType, sectionData: seq<byte>): (section: Option<seq<byte>>)
    ensures section.None? <==> |sectionData| > MaxSectionLength
    ensures section.Some? ==>
      && IsSection(section.value)
      && |section.value| == HeaderSize + |sectionData|
      && GetSectionType(section.value) == sectionType
      && GetSectionLength(section.value) == |sectionData|
      && GetSectionData(section.value) == sectionData
  {
    if |sectionData| > MaxSectionLength then None
    else
      var section := GetHeader(sectionType, |sectionData|) + sectionData;
      assert section[HeaderSize..] == sectionData;
      Some(section)
  }

  /** As TryMakeSection, but a payload that does not fit is an error. */
  function MakeSection(sectionType: SectionType, sectionData: seq<byte>): (section: Result<seq<byte>>)
    ensures section.Ok? <==> |sectionData| <= MaxSectionLength
    ensures section.Ok? ==> TryMakeSection(sectionType, sectionData) == Some(section.value)
    ensures section.Err? ==> section.error == PayloadTooLarge
  {
    match TryMakeSection(sectionType, sectionData)
    case Some(s) => Ok(s)
    case None => Err(PayloadTooLarge)
  }

  /** A buffer built by MakeSection reads back as the type, length and payload it was built from. */
  lemma SectionRoundTrip(sectionType: SectionType, sectionData: seq<byte>)
    requires |sectionData| <= MaxSectionLength
    ensures MakeSection(sectionType, sectionData).Ok?
    ensures var s := MakeSection(sectionType, sectionData).value;
      && GetSectionType(s) == sectionType
      && GetSectionLength(s) == |sectionData|
      && GetSectionData(s) == sectionData
  {
  }

  /** The same holds when the section sits at an offset inside a larger buffer. */
  lemma SectionRoundTripAt(before: seq<byte>, sectionType: SectionType, sectionData: seq<byte>, after: seq<byte>)
    requires |sectionData| <= MaxSectionLength
    ensures MakeSection(sectionType, sectionData).Ok?
    ensures var buf := before + MakeSection(sectionType, sectionData).value + after;
      && GetSectionTypeAt(buf, |before|) == sectionType
      && GetSectionLengthAt(buf, |before|) == |sectionData|
      && GetSectionDataAt(buf, |before|) == sectionData
  {
    var s := MakeSection(sectionType, sectionData).value;
    var buf := before + s + after;
    assert buf[|before|..|before| + |s|] == s;
    assert buf[|before|..|before| + HeaderSize] == s[..HeaderSize];
  }

  /** The one or two sections that result from merging two sections. */
  datatype MergeResult = MergeResult(merged: seq<byte>, overflow: Option<seq<byte>>)

  /**
   * Joins two sections of one type. When the combined payload does not fit,
   * the first result is filled to the maximum and the rest goes to an
   * overflow section of the same type.
   */
  function MergeSectionsAsMuchAsPossible(sectionOne: seq<byte>, sectionTwo: seq<byte>): (r: Result<MergeResult>)
    ensures |sectionOne| >= 1 && |sectionTwo| >= 1 && sectionOne[0] != sectionTwo[0] ==> r == Err(TypeMismatch)
    ensures IsSection(sectionOne) && IsSection(sectionTwo) && sectionOne[0] == sectionTwo[0] ==>
      && r.Ok?
      && IsSection(r.value.merged)
      && GetSectionType(r.value.merged) == sectionOne[0]
      && (r.value.overflow.None? <==> GetSectionLength(sectionOne) + GetSectionLength(sectionTwo) <= MaxSectionLength)
      && (r.value.overflow.None? ==>
            GetSectionData(r.value.merged) == GetSectionData(sectionOne) + GetSectionData(sectionTwo))
      && (r.value.overflow.Some? ==>
            && IsSection(r.value.overflow.value)
            && GetSectionType(r.value.overflow.value) == sectionOne[0]
            && GetSectionLength(r.value.merged) == MaxSectionLength
            && GetSectionData(r.value.merged) + GetSectionData(r.value.overflow.value)
               == GetSectionData(sectionOne) + GetSectionData(sectionTwo))
  {
    if |sectionOne| < 1 || |sectionTwo| < 1 then Err(OutOfRange)
    else
      var sectionType := GetSectionType(sectionOne);
      if sectionType != GetSectionType(sectionTwo) then Err(TypeMismatch)
      else if |sectionOne| < HeaderSize || |sectionTwo| < HeaderSize then Err(OutOfRange)
      else
        var combinedLength := GetSectionLength(sectionOne) + GetSectionLength(sectionTwo);
        if combinedLength > MaxSectionLength then
          if HeaderSize + GetSectionLength(sectionOne) > |sectionOne|
            || HeaderSize + GetSectionLength(sectionTwo) > |sectionTwo|
          then Err(OutOfRange)
          else
            var sectionOneData := GetSectionData(sectionOne);
            var sectionTwoData := GetSectionData(sectionTwo);
            var cut := MaxSectionLength - |sectionOneData|;
            var firstPart := MakeSection(sectionType, sectionOneData + sectionTwoData[..cut]).value;
            var secondPart := MakeSection(sectionType, sectionTwoData[cut..]).value;
            assert sectionOneData + sectionTwoData[..cut] + sectionTwoData[cut..] == sectionOneData + sectionTwoData;
            Ok(MergeResult(firstPart, Some(secondPart)))
        else
          assert IsSection(sectionOne) && IsSection(sectionTwo) ==>
            sectionOne[HeaderSize..] == GetSectionData(sectionOne) && sectionTwo[HeaderSize..] == GetSectionData(sectionTwo);
          var section := MakeSection(sectionType, sectionOne[HeaderSize..] + sectionTwo[HeaderSize..]);
          if section.Err? then Err(section.error)
          else Ok(MergeResult(section.value, None))
  }

  /** Two well-framed sections whose payloads fit together merge into exactly one section. */
  lemma MergeFits(sectionOne: seq<byte>, sectionTwo: seq<byte>)
    requires IsSection(sectionOne) && IsSection(sectionTwo)
    requires GetSectionType(sectionOne) == GetSectionType(sectionTwo)
    requires GetSectionLength(sectionOne) + GetSectionLength(sectionTwo) <= MaxSectionLength
    ensures MergeSectionsAsMuchAsPossible(sectionOne, sectionTwo)
         == Ok(MergeResult(MakeSection(GetSectionType(sectionOne),
                                       GetSectionData(sectionOne) + GetSectionData(sectionTwo)).value,
                           None))
  {
    assert sectionOne[HeaderSize..] == GetSectionData(sectionOne);
    assert sectionTwo[HeaderSize..] == GetSectionData(sectionTwo);
  }

  /** When the payloads do not fit together, the merged section is full and the overflow holds the excess. */
  lemma MergeOverflow(sectionOne: seq<byte>, sectionTwo: seq<byte>)
    requires IsSection(sectionOne) && IsSection(sectionTwo)
    requires GetSectionType(sectionOne) == GetSectionType(sectionTwo)
    requires GetSectionLength(sectionOne) + GetSectionLength(sectionTwo) > MaxSectionLength
    ensures var r := MergeSectionsAsMuchAsPossible(sectionOne, sectionTwo);
      && r.Ok? && r.value.overflow.Some?
      && |GetSectionData(r.value.merged)| == MaxSectionLength
      && |GetSectionData(r.value.overflow.value)|
         == GetSectionLength(sectionOne) + GetSectionLength(sectionTwo) - MaxSectionLength
      && GetSectionType(r.value.merged) == GetSectionType(r.value.overflow.value) == GetSectionType(sectionOne)
      && GetSectionData(r.value.merged) + GetSectionData(r.value.overflow.value)
         == GetSectionData(sectionOne) + GetSectionData(sectionTwo)
  {
    var r := MergeSectionsAsMuchAsPossible(sectionOne, sectionTwo);
    assert |GetSectionData(r.value.merged) + GetSectionData(r.value.overflow.value)|
        == |GetSectionData(sectionOne) + GetSectionData(sectionTwo)|;
  }
}
