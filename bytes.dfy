/**
 * Bytes, and the null-stripping that both `clean` operations perform
 * (src/header.rs:103-112 and src/header.rs:250-265).
 */
module Bytes {

  /** An unsigned 8-bit integer, Rust's `u8`. */
  newtype byte = b: int | 0 <= b < 0x100

  /** No byte of `s` is the null byte, the placeholder a character map writes for a rejected byte. */
  predicate NoNulls(s: seq<byte>) {
    forall i :: 0 <= i < |s| ==> s[i] != 0
  }

  /** Every byte of `s` is 7-bit ASCII, so `s` is also valid UTF-8. */
  predicate IsAscii(s: seq<byte>) {
    forall i :: 0 <= i < |s| ==> s[i] < 0x80
  }

  /** `s` with every null byte removed and the other bytes kept in their order. */
  function StripNulls(s: seq<byte>): (r: seq<byte>)
    ensures |r| <= |s|
    ensures NoNulls(r)
  {
    if s == [] then []
    else if s[0] == 0 then StripNulls(s[1..])
    else [s[0]] + StripNulls(s[1..])
  }

  /** Stripping keeps exactly the non-null bytes: each one as often as it occurs in `s`. */
  lemma {:induction false} StripNullsCounts(s: seq<byte>)
    ensures multiset(StripNulls(s)) == multiset(s)[0 := 0]
  {
    if s != [] {
      StripNullsCounts(s[1..]);
      assert s == [s[0]] + s[1..];
    }
  }

  /** A byte occurs in the stripped sequence if and only if it is a non-null byte of `s`. */
  lemma StripNullsMembers(s: seq<byte>)
    ensures forall b :: b in StripNulls(s) <==> b in s && b != 0
  {
    StripNullsCounts(s);
    forall b ensures b in StripNulls(s) <==> b in s && b != 0 {
      assert b in StripNulls(s) <==> b in multiset(StripNulls(s));
      assert b in s <==> b in multiset(s);
    }
  }

  /** Stripping a sequence that has no null byte changes nothing. */
  lemma {:induction false} StripNullsIdentity(s: seq<byte>)
    requires NoNulls(s)
    ensures StripNulls(s) == s
  {
    if s != [] {
      StripNullsIdentity(s[1..]);
    }
  }

  /** Stripping twice is stripping once. */
  lemma StripNullsIdempotent(s: seq<byte>)
    ensures StripNulls(StripNulls(s)) == StripNulls(s)
  {
    StripNullsIdentity(StripNulls(s));
  }

  /**
   * The loop of `clean`: the input is drained from the front, as `VecDeque::pop_front`
   * does, and every byte that is not null is pushed onto the output.
   */
  method RemoveNulls(s: seq<byte>) returns (o: seq<byte>)
    ensures o == StripNulls(s)
  {
    o := [];
    var rest := s;
    while rest != []
      invariant o + StripNulls(rest) == StripNulls(s)
      decreases |rest|
    {
      var v := rest[0];
      rest := rest[1..];
      if v != 0 {
        o := o + [v];
      }
    }
  }

  /** The characters whose code points are the bytes of `s`; for ASCII bytes this is the UTF-8 reading of `s`. */
  function AsChars(s: seq<byte>): (r: string)
    ensures |r| == |s|
  {
    seq(|s|, i requires 0 <= i < |s| => s[i] as char)
  }

  /** The bytes of an ASCII string, which are its UTF-8 encoding. */
  function AsciiBytes(s: string): (r: seq<byte>)
    requires forall i :: 0 <= i < |s| ==> s[i] as int < 0x80
    ensures |r| == |s| && IsAscii(r)
  {
    seq(|s|, i requires 0 <= i < |s| => s[i] as byte)
  }
}
