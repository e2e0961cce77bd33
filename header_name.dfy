/** `HeaderFieldName` (src/header.rs:36-132). */
module HeaderName {
  import opened Bytes
  import opened CharacterMaps
  import opened Wrappers

  /** `InvalidHeaderFieldName`: the input held a byte outside the name alphabet. No position is reported. */
  datatype InvalidHeaderFieldName = InvalidHeaderFieldName

  /** The bytes of a header field name. */
  datatype HeaderFieldName = HeaderFieldName(bytes: seq<byte>) {

    /**
     * Every byte is a name character. The type's documentation claims this of every name;
     * it holds of names built by `from_bytes` and of every name after `clean`.
     */
    predicate Valid() {
      AllAccepted(Name, bytes)
    }

    /** Every byte is a name character or a null placeholder: what every constructor guarantees. */
    predicate Normal() {
      AcceptedOrNull(Name, bytes)
    }

    /** `from_bytes`: fails on the first byte the name table rejects, else keeps the input unchanged. */
    static method FromBytes(value: seq<byte>) returns (r: Result<HeaderFieldName, InvalidHeaderFieldName>)
      ensures r.Ok? <==> AllAccepted(Name, value)
      ensures r.Ok? ==> r.value.bytes == value && r.value.Valid()
    {
      var o := [];
      for i := 0 to |value|
        invariant o == value[..i]
        invariant AllAccepted(Name, o)
      {
        var c := ClassifyName(value[i]);
        if c == 0 {
          return Err(InvalidHeaderFieldName);
        }
        o := o + [c];
      }
      assert value[..|value|] == value;
      return Ok(HeaderFieldName(o));
    }

    /** `from_bytes_unchecked`: never fails; every rejected byte becomes a null placeholder. */
    static method FromBytesUnchecked(value: seq<byte>) returns (n: HeaderFieldName)
      ensures n.bytes == Normalized(Name, value)
      ensures n.Normal()
    {
      var o := [];
      for i := 0 to |value|
        invariant o == Normalized(Name, value[..i])
      {
        assert value[..i + 1] == value[..i] + [value[i]];
        o := o + [ClassifyName(value[i])];
      }
      assert value[..|value|] == value;
      n := HeaderFieldName(o);
      NormalizedIsAcceptedOrNull(Name, value);
    }

    /** `from_static`: `from_bytes_unchecked` applied to the UTF-8 bytes of a string constant. */
    static method FromStatic(s: seq<byte>) returns (n: HeaderFieldName)
      ensures n.bytes == Normalized(Name, s)
      ensures n.Normal()
    {
      n := FromBytesUnchecked(s);
    }

    /**
     * `clean`: removes every null byte and keeps the rest in order. A name any constructor
     * built is valid afterwards, and a valid name comes back unchanged.
     */
    method Clean() returns (c: HeaderFieldName)
      ensures c.bytes == StripNulls(bytes)
      ensures Normal() ==> c.Valid()
      ensures Valid() ==> c == this
    {
      var o := RemoveNulls(bytes);
      c := HeaderFieldName(o);
      if Normal() {
        StripNullsLeavesAccepted(Name, bytes);
      }
      if Valid() {
        StripNullsIdentity(bytes);
      }
    }

    /** `as_bytes` and `into_inner`: the bytes of the name. */
    function AsBytes(): (r: seq<byte>)
      ensures r == bytes
      ensures Valid() ==> AllAccepted(Name, r)
      ensures Normal() ==> IsAscii(r)
    {
      if Normal() then AsciiWhenNormal(Name, bytes); bytes
      else bytes
    }

    /**
     * `as_utf8_str`: the bytes read as text without checking. For every name a constructor
     * builds the bytes are ASCII, so the reading is sound and gives one character per byte.
     */
    function AsUtf8Str(): (s: string)
      ensures |s| == |bytes|
      ensures Normal() ==> forall i :: 0 <= i < |s| ==> s[i] as int == bytes[i] as int < 0x80
    {
      if Normal() then AsciiWhenNormal(Name, bytes); AsChars(bytes)
      else AsChars(bytes)
    }
  }

  /** The unit test at src/header.rs:301-305: a name of name characters comes out unchanged. */
  method NameFromValidCharsUnchecked() {
    var test := HeaderFieldName.FromStatic(AsciiBytes("test"));
    NormalizedHasNoNullsIff(Name, AsciiBytes("test"));
    assert test.AsBytes() == AsciiBytes("test");
  }

  /**
   * The unit tests at src/header.rs:307-323: in "2±1+1" the two UTF-8 bytes of '±' and the '+'
   * become null placeholders, and `clean` removes them.
   */
  method NameFromInvalidCharsUnchecked() {
    var mixed := HeaderFieldName.FromStatic([0x32, 0xC2, 0xB1, 0x31, 0x2B, 0x31]);
    assert mixed.AsBytes() == [0x32, 0, 0, 0x31, 0, 0x31];
    assert mixed.AsUtf8Str() == "2\0\01\01";
    var cleaned := mixed.Clean();
    assert StripNulls([0, 0x31]) == [0x31];
    assert StripNulls([0, 0, 0x31, 0, 0x31]) == [0x31, 0x31];
    assert cleaned.AsUtf8Str() == "211";
  }

  /** The empty input is a valid name, and a '+' (a token character) makes `from_bytes` fail. */
  method NameFromBytesEdges() {
    var empty := HeaderFieldName.FromBytes([]);
    assert empty == Ok(HeaderFieldName([]));
    var rejected := HeaderFieldName.FromBytes([0x32, 0x2B]);
    assert !Accepts(Name, [0x32, 0x2B][1]);
    assert rejected.Err?;
  }
}
