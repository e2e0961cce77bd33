/** `ValueType` and `HeaderFieldValue` (src/header.rs:134-295). */
module HeaderValue {
  import opened Bytes
  import opened CharacterMaps
  import opened Wrappers

  /** The text a secret value renders as, whatever its content. */
  const Redacted: string := "<REDACTED>"

  /**
   * `ValueType`: the bytes of a value, tagged with whether they may be shown. Both variants
   * carry the bytes in the shared field `bytes`, which is what `as_bytes` and `into_inner` return.
   */
  datatype ValueType = Visible(bytes: seq<byte>) | Secret(bytes: seq<byte>) {

    /** `into_secret`: the same bytes, tagged secret. */
    function IntoSecret(): (r: ValueType)
      ensures r.Secret? && r.bytes == bytes
    {
      match this
      case Visible(b) => Secret(b)
      case Secret(b) => Secret(b)
    }

    /** `into_visible`: the same bytes, tagged visible. */
    function IntoVisible(): (r: ValueType)
      ensures r.Visible? && r.bytes == bytes
    {
      match this
      case Visible(b) => Visible(b)
      case Secret(b) => Visible(b)
    }

    /** `Debug::fmt`: visible bytes are shown as they are, secret bytes never. */
    function Debug(): (s: string)
      ensures Secret? ==> s == Redacted
      ensures Visible? ==> |s| == |bytes| && forall i :: 0 <= i < |s| ==> s[i] as int == bytes[i] as int
    {
      match this
      case Visible(b) => AsChars(b)
      case Secret(_) => Redacted
    }
  }

  /** `InvalidHeaderFieldValue`: the input held a byte outside the value alphabet. No position is reported. */
  datatype InvalidHeaderFieldValue = InvalidHeaderFieldValue

  /** A header field value: its bytes and its secrecy tag. */
  datatype HeaderFieldValue = HeaderFieldValue(inner: ValueType) {

    /**
     * Every byte is a value character. The type's documentation claims this of every value;
     * it holds of values built by `from_bytes` and of every value after `clean`.
     */
    predicate Valid() {
      AllAccepted(Value, inner.bytes)
    }

    /** Every byte is a value character or a null placeholder: what every constructor guarantees. */
    predicate Normal() {
      AcceptedOrNull(Value, inner.bytes)
    }

    /** `from_bytes`: fails on the first byte the value table rejects, else keeps the input unchanged, visible. */
    static method FromBytes(value: seq<byte>) returns (r: Result<HeaderFieldValue, InvalidHeaderFieldValue>)
      ensures r.Ok? <==> AllAccepted(Value, value)
      ensures r.Ok? ==> r.value.AsBytes() == value && r.value.Valid() && !r.value.IsSecret()
    {
      var o := [];
      for i := 0 to |value|
        invariant o == value[..i]
        invariant AllAccepted(Value, o)
      {
        var c := ClassifyValue(value[i]);
        if c == 0 {
          return Err(InvalidHeaderFieldValue);
        }
        o := o + [c];
      }
      assert value[..|value|] == value;
      return Ok(HeaderFieldValue(Visible(o)));
    }

    /** `from_bytes_unchecked`: never fails; every rejected byte becomes a null placeholder; the result is visible. */
    static method FromBytesUnchecked(value: seq<byte>) returns (v: HeaderFieldValue)
      ensures v.AsBytes() == Normalized(Value, value)
      ensures v.Normal() && !v.IsSecret()
    {
      var o := [];
      for i := 0 to |value|
        invariant o == Normalized(Value, value[..i])
      {
        assert value[..i + 1] == value[..i] + [value[i]];
        o := o + [ClassifyValue(value[i])];
      }
      assert value[..|value|] == value;
      v := HeaderFieldValue(Visible(o));
      NormalizedIsAcceptedOrNull(Value, value);
    }

    /** `from_static`: `from_bytes_unchecked` applied to the UTF-8 bytes of a string constant. */
    static method FromStatic(s: seq<byte>) returns (v: HeaderFieldValue)
      ensures v.AsBytes() == Normalized(Value, s)
      ensures v.Normal() && !v.IsSecret()
    {
      v := FromBytesUnchecked(s);
    }

    /** `as_bytes` and `into_inner`: the bytes of the value, whatever its tag. */
    function AsBytes(): (r: seq<byte>)
      ensures r == inner.bytes
      ensures Valid() ==> AllAccepted(Value, r)
      ensures Normal() ==> IsAscii(r)
    {
      if Normal() then AsciiWhenNormal(Value, inner.bytes); inner.bytes
      else inner.bytes
    }

    /** `is_secret`: a value that reports itself secret is redacted in debug output. */
    predicate IsSecret()
      ensures IsSecret() ==> inner.Debug() == Redacted
    {
      inner.Secret?
    }

    /**
     * `clean`: removes every null byte, keeps the rest in order and keeps the tag. A value any
     * constructor built is valid afterwards, and a valid value comes back unchanged.
     */
    method Clean() returns (c: HeaderFieldValue)
      ensures c.AsBytes() == StripNulls(AsBytes())
      ensures c.IsSecret() == IsSecret()
      ensures Normal() ==> c.Valid()
      ensures Valid() ==> c == this
    {
      var secret := IsSecret();
      var o := RemoveNulls(inner.bytes);
      c := HeaderFieldValue(if secret then Secret(o) else Visible(o));
      if Normal() {
        StripNullsLeavesAccepted(Value, inner.bytes);
      }
      if Valid() {
        StripNullsIdentity(inner.bytes);
      }
    }

    /** `into_secret`: the same bytes, no longer shown by `Debug`. */
    function IntoSecret(): (r: HeaderFieldValue)
      ensures r.IsSecret() && r.AsBytes() == AsBytes()
    {
      HeaderFieldValue(inner.IntoSecret())
    }

    /** `into_visible`: the same bytes, shown by `Debug` again. */
    function IntoVisible(): (r: HeaderFieldValue)
      ensures !r.IsSecret() && r.AsBytes() == AsBytes()
    {
      HeaderFieldValue(inner.IntoVisible())
    }

    /**
     * `as_utf8_str`: the bytes read as text without checking. For every value a constructor
     * builds the bytes are ASCII, so the reading is sound and gives one character per byte.
     */
    function AsUtf8Str(): (s: string)
      ensures |s| == |AsBytes()|
      ensures Normal() ==> forall i :: 0 <= i < |s| ==> s[i] as int == AsBytes()[i] as int < 0x80
    {
      if Normal() then AsciiWhenNormal(Value, inner.bytes); AsChars(inner.bytes)
      else AsChars(inner.bytes)
    }

    /** The derived `Debug` of the wrapper: the type name around the rendering of the tagged bytes. */
    function Debug(): (s: string)
      ensures IsSecret() ==> s == "HeaderFieldValue(<REDACTED>)"
      ensures !IsSecret() ==> s == "HeaderFieldValue(" + AsUtf8Str() + ")"
    {
      "HeaderFieldValue(" + inner.Debug() + ")"
    }
  }

  /**
   * The tag is a two-state machine driven only by `into_secret` and `into_visible`: the later
   * call decides the tag, each call is idempotent, and neither touches the bytes.
   */
  lemma LaterToggleWins(v: HeaderFieldValue)
    ensures v.IntoVisible().IntoSecret() == v.IntoSecret()
    ensures v.IntoSecret().IntoVisible() == v.IntoVisible()
    ensures v.IntoSecret().IntoSecret() == v.IntoSecret()
    ensures v.IntoVisible().IntoVisible() == v.IntoVisible()
    ensures v.IsSecret() ==> v.IntoSecret() == v
    ensures !v.IsSecret() ==> v.IntoVisible() == v
  {
  }

  /** A secret value renders the same whatever its bytes: the rendering reveals nothing of them. */
  lemma SecretRenderingIgnoresContent(v: HeaderFieldValue, w: HeaderFieldValue)
    requires v.IsSecret() && w.IsSecret()
    ensures v.Debug() == w.Debug()
  {
  }

  /** A visible value renders its bytes, so two visible values render alike only if their bytes are alike. */
  lemma VisibleRenderingShowsContent(v: HeaderFieldValue, w: HeaderFieldValue)
    requires !v.IsSecret() && !w.IsSecret()
    ensures v.Debug() == w.Debug() <==> v.AsBytes() == w.AsBytes()
  {
    var prefix := "HeaderFieldValue(";
    if v.Debug() == w.Debug() {
      var sv, sw := v.AsUtf8Str(), w.AsUtf8Str();
      assert |sv| == |sw|;
      forall i | 0 <= i < |sv| ensures sv[i] == sw[i] {
        assert v.Debug()[|prefix| + i] == sv[i];
        assert w.Debug()[|prefix| + i] == sw[i];
      }
      assert sv == sw;
    }
  }

  /**
   * The redaction marker is fixed text, so a secret whose bytes happen to spell part of it,
   * such as `RED`, appears in its own rendering: what redaction guarantees is independence
   * from the content, not absence of every substring of it.
   */
  lemma RedactionMarkerMayContainContent()
    ensures HeaderFieldValue(Secret(AsciiBytes("RED"))).Debug()[18..21] == "RED"
  {
  }

  /** The unit test at src/header.rs:325-329: a secret value renders redacted. */
  method SecretValueRedactedDebugOutput() {
    var test := HeaderFieldValue.FromStatic(AsciiBytes("test"));
    var secret := test.IntoSecret();
    assert secret.Debug() == "HeaderFieldValue(<REDACTED>)";
    var cleaned := secret.Clean();
    assert cleaned.Debug() == "HeaderFieldValue(<REDACTED>)";
  }

  /** The unit test at src/header.rs:331-335: a visible value renders its bytes. */
  method VisibleValueDebugOutput() {
    var test := HeaderFieldValue.FromStatic(AsciiBytes("test"));
    NormalizedHasNoNullsIff(Value, AsciiBytes("test"));
    assert test.AsBytes() == AsciiBytes("test");
    assert test.Debug() == "HeaderFieldValue(test)";
  }

  /** The empty input is a valid value, and DEL (0x7F) makes `from_bytes` fail. */
  method ValueFromBytesEdges() {
    var empty := HeaderFieldValue.FromBytes([]);
    assert empty.Ok? && empty.value.AsBytes() == [];
    var rejected := HeaderFieldValue.FromBytes([0x74, 0x7F]);
    assert !Accepts(Value, [0x74, 0x7F][1]);
    assert rejected.Err?;
  }
}
