/** C strings in a buffer. */
module CStrings {
  import opened Machine

  /** A C string: no NUL inside. */
  type CString = s: seq<byte> | 0 !in s

  datatype Length = Unending | Length(chars: nat)

  /** strlen of the C string at an offset, if it ends inside the buffer. */
  function StrLen(b: seq<byte>, at: nat): (r: Length)
    ensures r.Length? ==> at + r.chars < |b| && b[at + r.chars] == 0 && 0 !in b[at..at + r.chars]
    decreases |b| - at
  {
    if at >= |b| then Unending
    else if b[at] == 0 then Length(0)
    else
      var rest := StrLen(b, at + 1);
      if rest.Unending? then Unending
      else
        assert b[at..at + 1 + rest.chars] == [b[at]] + b[at + 1..at + 1 + rest.chars];
        Length(rest.chars + 1)
  }

  predicate HoldsString(b: seq<byte>, at: nat, s: seq<byte>) {
    at + |s| < |b| && b[at..at + |s|] == s && b[at + |s|] == 0
  }

  /** The C string at an offset. */
  predicate TextIs(b: seq<byte>, at: nat, s: seq<byte>) {
    var len := StrLen(b, at);
    len.Length? && b[at..at + len.chars] == s
  }

  lemma {:induction false} HeldText(b: seq<byte>, at: nat, s: CString)
    requires HoldsString(b, at, s)
    ensures StrLen(b, at) == Length(|s|) && TextIs(b, at, s)
    decreases |s|
  {
    if s != [] {
      assert b[at] == b[at..at + |s|][0] == s[0];
      assert b[at + 1..at + |s|] == s[1..];
      HeldText(b, at + 1, s[1..]);
    }
  }
}
