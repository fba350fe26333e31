/** The two directions of the marshaling layer, call against call. */
module MuAgreement {
  import opened TpmBase
  import opened MuFormat
  import opened MuLaws
  import opened MuMarshal
  import opened MuUnmarshal

  lemma SpliceRest(before: seq<byte>, offset: nat, bs: seq<byte>, size: nat)
    requires |bs| <= Room(size, offset) && offset <= size <= |before|
    ensures exists tail :: Splice(before, offset, bs)[offset..size] == bs + tail
  {
    var after := Splice(before, offset, bs);
    var tail := before[offset + |bs|..size];
    assert after[offset..size] == bs + tail;
  }

  /** A value that was marshaled at some offset is read back from there, whatever stands
      behind it in the buffer, and both calls leave their offset at the same place. */
  lemma PrintThenParse(f: Format, v: Value, blind: bool, size: nat, offset: nat, before: seq<byte>, after: seq<byte>,
                       printedTo: nat, rc: Rc, parsedTo: nat, w: Value)
    requires Holds(WellFormed, f, v) && offset <= size <= |before|
    requires Printed(Encode(f, v), true, blind, true, size, offset, before, after, Success, printedTo)
    requires Parsed(Decode(f, after[offset..size], true), rc, offset, parsedTo, w)
    ensures rc == Success && w == v && parsedTo == printedTo
  {
    hide Encode, Decode, Holds, Splice;
    SpliceRest(before, offset, Encode(f, v), size);
    var tail :| after[offset..size] == Encode(f, v) + tail;
    RoundTrip(f, v, tail);
  }

  /** A value that was read is marshaled back to the bytes it was read from, so that writing
      it where it came from changes nothing. */
  lemma ParseThenPrint(f: Format, blind: bool, size: nat, offset: nat, buffer: seq<byte>, parsedTo: nat, v: Value,
                       after: seq<byte>, rc: Rc, printedTo: nat)
    requires offset <= size <= |buffer|
    requires Parsed(Decode(f, buffer[offset..size], true), Success, offset, parsedTo, v)
    requires Printed(Encode(f, v), Holds(Printable, f, v), blind, true, size, offset, buffer, after, rc, printedTo)
    ensures rc == Success && printedTo == parsedTo && after == buffer
  {
    hide Encode, Decode, Holds;
    var input := buffer[offset..size];
    Canonical(f, input);
    GradesNested(f, v);
    assert Encode(f, v) == input[..parsedTo - offset] == buffer[offset..parsedTo];
  }
}
