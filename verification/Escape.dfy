/** Strings in the configuration file: sym_escape_string_value of util/kconfig/symbol.c,
    and the string case of conf_set_sym_val of util/kconfig/confdata.c. */
module Escape {
  import opened Machine
  import opened CStrings

  const QUOTE: byte := 34
  const BACKSLASH: byte := 92

  predicate Special(c: byte) { c == QUOTE || c == BACKSLASH }

  /** A backslash in front of every quote and backslash. */
  function Escaped(s: seq<byte>): seq<byte> {
    if s == [] then []
    else (if Special(s[0]) then [BACKSLASH, s[0]] else [s[0]]) + Escaped(s[1..])
  }

  function Quoted(s: seq<byte>): seq<byte> { [QUOTE] + Escaped(s) + [QUOTE] }

  /** strcspn with quote and backslash: what comes before the first of them. */
  function Plain(s: seq<byte>): (n: nat)
    ensures n <= |s| && (n < |s| ==> Special(s[n])) && forall i | 0 <= i < n :: !Special(s[i])
  {
    if s == [] || Special(s[0]) then 0 else 1 + Plain(s[1..])
  }

  lemma {:induction false} EscapedPlain(s: seq<byte>, n: nat)
    requires n <= |s| && forall i | 0 <= i < n :: !Special(s[i])
    ensures Escaped(s) == s[..n] + Escaped(s[n..])
    decreases n
  {
    if n > 0 {
      EscapedPlain(s[1..], n - 1);
      assert s[1..][n - 1..] == s[n..] && s[..n] == [s[0]] + s[1..][..n - 1];
    }
  }

  /** One turn of the loops: some plain bytes, then the end or a special byte. */
  lemma EscapedFrom(s: seq<byte>, p: nat)
    requires p <= |s|
    ensures var l := Plain(s[p..]);
            && p + l <= |s| && Escaped(s[p..]) == s[p..p + l] + Escaped(s[p + l..])
            && (p + l < |s| ==> Escaped(s[p + l..]) == [BACKSLASH, s[p + l]] + Escaped(s[p + l + 1..]))
            && (p + l == |s| ==> Escaped(s[p + l..]) == [])
  {
    var l := Plain(s[p..]);
    EscapedPlain(s[p..], l);
    assert s[p..][l..] == s[p + l..] && s[p..][..l] == s[p..p + l];
    if p + l < |s| { assert s[p + l..][1..] == s[p + l + 1..]; }
  }

  lemma {:induction false} EscapedNulFree(s: seq<byte>)
    requires 0 !in s
    ensures 0 !in Escaped(s)
  {
    if s != [] { EscapedNulFree(s[1..]); }
  }

  // ---------------------------------------------------------------------------
  // Writing
  // ---------------------------------------------------------------------------

  /** strcat, and strncat with no more than the rest of its source. */
  method Append(res: array<byte>, s: seq<byte>, ghost cur: CString)
    requires HoldsString(res[..], 0, cur) && |cur| + |s| < res.Length && 0 !in s
    modifies res
    ensures HoldsString(res[..], 0, cur + s)
  {
    HeldText(res[..], 0, cur);
    var end := StrLen(res[..], 0).chars;
    forall i | 0 <= i < |s| { res[end + i] := s[i]; }
    res[end + |s|] := 0;
    assert res[..][..|cur| + |s|] == cur + s;
  }

  method Clear(res: array<byte>)
    requires res.Length > 0
    modifies res
    ensures HoldsString(res[..], 0, [])
  {
    res[0] := 0;
  }

  /** A backslash and the byte it protects. */
  method AppendEscape(res: array<byte>, c: byte, ghost cur: CString)
    requires HoldsString(res[..], 0, cur) && |cur| + 2 < res.Length && c != 0
    modifies res
    ensures HoldsString(res[..], 0, cur + [BACKSLASH, c])
  {
    hide HoldsString;
    Append(res, [BACKSLASH], cur);
    Append(res, [c], cur + [BACKSLASH]);
    assert cur + [BACKSLASH] + [c] == cur + [BACKSLASH, c];
  }

  /** The first pass: two quotes, the NUL, and one more for every special byte. */
  method EscapedLength(input: CString) returns (reslen: nat)
    ensures reslen == |Quoted(input)| + 1
  {
    reslen := |input| + 2 + 1;
    var p := 0;
    assert input[0..] == input;
    while true
      invariant p <= |input| && reslen + |Escaped(input[p..])| == |Escaped(input)| + 3 + |input[p..]|
      decreases |input| - p
    {
      EscapedFrom(input, p);
      var l := Plain(input[p..]);
      p := p + l;
      if p == |input| { break; }
      reslen := reslen + 1;
      p := p + 1;
    }
  }

  /** sym_escape_string_value: the text and its NUL fill the buffer exactly. */
  method EscapeStringValue(input: CString) returns (res: array<byte>)
    ensures fresh(res) && HoldsString(res[..], 0, Quoted(input)) && res.Length == |Quoted(input)| + 1
  {
    hide Escaped, Plain, HoldsString, Special;
    var reslen := EscapedLength(input);
    res := new byte[reslen];
    Clear(res);
    EscapedNulFree(input);
    ghost var cur: CString := [];
    Append(res, [QUOTE], cur);
    cur := [QUOTE];
    var p := 0;
    assert input[0..] == input;
    while true
      invariant p <= |input| && HoldsString(res[..], 0, cur)
      invariant cur + Escaped(input[p..]) == [QUOTE] + Escaped(input)
      decreases |input| - p
    {
      EscapedFrom(input, p);
      var l := Plain(input[p..]);
      Append(res, input[p..p + l], cur);
      cur := cur + input[p..p + l];
      p := p + l;
      if p == |input| { break; }
      AppendEscape(res, input[p], cur);
      cur := cur + [BACKSLASH, input[p]];
      p := p + 1;
    }
    assert cur + [QUOTE] == Quoted(input);
    Append(res, [QUOTE], cur);
  }

  // ---------------------------------------------------------------------------
  // Reading
  // ---------------------------------------------------------------------------

  /** What the string case makes of a text: no quote in front, no closing quote, or a
      value. */
  datatype Value = NotQuoted | Unterminated | Value(text: seq<byte>)

  function Unescaped(t: seq<byte>): Value
    decreases |t|
  {
    if t == [] then Unterminated
    else if t[0] == QUOTE then Value([])
    else if t[0] != BACKSLASH then Behind(t[..1], Unescaped(t[1..]))
    else if |t| == 1 then Unterminated
    else Behind(t[1..2], Unescaped(t[2..]))
  }

  function Behind(s: seq<byte>, v: Value): Value {
    if v.Value? then Value(s + v.text) else v
  }

  function Unquoted(t: seq<byte>): Value {
    if t == [] || t[0] != QUOTE then NotQuoted else Unescaped(t[1..])
  }

  /** Every string is read back exactly, whatever follows its closing quote. */
  lemma {:induction false} UnescapeEscaped(s: seq<byte>, rest: seq<byte>)
    ensures Unescaped(Escaped(s) + [QUOTE] + rest) == Value(s)
  {
    var t := Escaped(s) + [QUOTE] + rest;
    if s != [] {
      UnescapeEscaped(s[1..], rest);
      var tail := Escaped(s[1..]) + [QUOTE] + rest;
      if Special(s[0]) {
        assert t == [BACKSLASH, s[0]] + tail;
        assert t[2..] == tail && t[1..2] == [s[0]];
      } else {
        assert t == [s[0]] + tail;
        assert t[1..] == tail && t[..1] == [s[0]];
      }
    }
  }

  lemma QuotedReadsBack(s: seq<byte>, rest: seq<byte>)
    ensures Unquoted(Quoted(s) + rest) == Value(s)
  {
    UnescapeEscaped(s, rest);
    assert (Quoted(s) + rest)[1..] == Escaped(s) + [QUOTE] + rest;
  }

  /** The backslashes right in front of a place. */
  function Backslashes(t: seq<byte>, k: nat): nat
    requires k <= |t|
  {
    if k > 0 && t[k - 1] == BACKSLASH then 1 + Backslashes(t, k - 1) else 0
  }

  /** A quote that is not escaped. */
  predicate Closes(t: seq<byte>, k: nat) {
    k < |t| && t[k] == QUOTE && Backslashes(t, k) % 2 == 0
  }

  /** A text is rejected if and only if it has no quote with an even number of backslashes
      in front, whatever it ends in. */
  lemma {:induction false} RejectedIff(t: seq<byte>)
    ensures Unescaped(t).Unterminated? <==> !exists k: nat :: Closes(t, k)
    ensures !Unescaped(t).NotQuoted?
    decreases |t|
  {
    if t == [] {
    } else if t[0] == QUOTE {
      assert Closes(t, 0);
    } else if t[0] == BACKSLASH && |t| == 1 {
    } else {
      var n := if t[0] == BACKSLASH then 2 else 1;
      RejectedIff(t[n..]);
      forall k: nat ensures k >= n ==> (Closes(t, k) <==> Closes(t[n..], k - n)) {
        if n <= k <= |t| { BackslashesBehind(t, n, k); }
      }
      if k: nat :| Closes(t[n..], k) { assert Closes(t, k + n); }
      if k: nat :| Closes(t, k) {
        assert n == 2 ==> Backslashes(t, 1) == 1;
        assert Closes(t[n..], k - n);
      }
    }
  }

  /** Taking off a plain byte, or a backslash and what it escapes, keeps the parity. */
  lemma {:induction false} BackslashesBehind(t: seq<byte>, n: nat, k: nat)
    requires n <= k <= |t| && t != [] && n == if t[0] == BACKSLASH then 2 else 1
    ensures Backslashes(t, k) % 2 == Backslashes(t[n..], k - n) % 2
  {
    if k > n {
      BackslashesBehind(t, n, k - 1);
    } else if n == 2 {
      assert Backslashes(t, 1) == 1;
    }
  }

  // ---------------------------------------------------------------------------
  // Reading in place
  // ---------------------------------------------------------------------------

  datatype Outcome = NoString | Invalid | ValueSet

  function OutcomeOf(v: Value): Outcome {
    match v
    case NotQuoted => NoString
    case Unterminated => Invalid
    case Value(_) => ValueSet
  }

  lemma BehindBehind(a: seq<byte>, b: seq<byte>, v: Value)
    ensures Behind(a, Behind(b, v)) == Behind(a + b, v)
  {
    if v.Value? { assert a + (b + v.text) == a + b + v.text; }
  }

  lemma {:induction false} UnescapedPlain(t: seq<byte>, n: nat)
    requires n <= |t| && forall i | 0 <= i < n :: !Special(t[i])
    ensures Unescaped(t) == Behind(t[..n], Unescaped(t[n..]))
    decreases n
  {
    if n == 0 {
      assert t[0..] == t && t[..0] == [];
    } else {
      UnescapedPlain(t[1..], n - 1);
      assert t[1..][n - 1..] == t[n..] && t[..1] + t[1..][..n - 1] == t[..n];
      BehindBehind(t[..1], t[1..][..n - 1], Unescaped(t[n..]));
    }
  }

  /** What the next special byte decides. */
  lemma UnescapedNext(done: seq<byte>, rest: seq<byte>)
    ensures var l, whole := Plain(rest), Behind(done, Unescaped(rest));
            && (l == |rest| ==> whole == Unterminated)
            && (l < |rest| && rest[l] == QUOTE ==> whole == Value(done + rest[..l]))
            && (l < |rest| && rest[l] != QUOTE && l + 1 == |rest| ==> whole == Unterminated)
            && (l + 1 < |rest| && rest[l] != QUOTE ==>
                  whole == Behind(done + rest[..l] + [rest[l + 1]], Unescaped(rest[l + 2..])))
  {
    hide Unescaped, Plain;
    var l := Plain(rest);
    UnescapedPlain(rest, l);
    BehindBehind(done, rest[..l], Unescaped(rest[l..]));
    UnescapedSpecial(rest, l);
    if l + 1 < |rest| { BehindBehind(done + rest[..l], [rest[l + 1]], Unescaped(rest[l + 2..])); }
  }

  lemma UnescapedSpecial(t: seq<byte>, l: nat)
    requires l <= |t| && (l < |t| ==> Special(t[l]))
    ensures l == |t| ==> Unescaped(t[l..]) == Unterminated
    ensures l < |t| && t[l] == QUOTE ==> Unescaped(t[l..]) == Value([])
    ensures l < |t| && t[l] != QUOTE && l + 1 == |t| ==> Unescaped(t[l..]) == Unterminated
    ensures l + 1 < |t| && t[l] != QUOTE ==> Unescaped(t[l..]) == Behind([t[l + 1]], Unescaped(t[l + 2..]))
  {
    if l + 1 < |t| { assert t[l..][2..] == t[l + 2..] && t[l..][1..2] == [t[l + 1]]; }
  }

  /** memmove of the text behind an offset, with its NUL, by one to the left. The NUL
      stays where it was, too. */
  method ShiftLeft(buf: array<byte>, p2: nat, ghost a: CString, ghost c: byte, ghost b: CString)
    requires c != 0 && HoldsString(buf[..], 1, a + [c] + b) && p2 == 1 + |a|
    modifies buf
    ensures HoldsString(buf[..], 1, a + b)
    ensures p2 + 1 + |b| < buf.Length && buf[p2 + 1 + |b|] == 0
    ensures forall i | p2 + 1 + |b| <= i < buf.Length :: buf[i] == old(buf[i])
  {
    assert a + [c] + b == a + ([c] + b);
    Suffix(buf[..], 1, a, [c] + b);
    HeldText(buf[..], p2, [c] + b);
    var n := StrLen(buf[..], p2).chars;
    assert n == 1 + |b| && buf[p2 + n] == 0;
    ghost var was := buf[..];
    hide HoldsString, StrLen, TextIs;
    forall i | 0 <= i < n { buf[p2 + i] := buf[p2 + i + 1]; }
    Shifted(was, buf[..], a, c, b);
  }

  lemma Shifted(was: seq<byte>, now: seq<byte>, a: seq<byte>, c: byte, b: seq<byte>)
    requires HoldsString(was, 1, a + [c] + b) && |was| == |now|
    requires forall i | 0 <= i <= |a| :: now[i] == was[i]
    requires forall i | 1 + |a| <= i < 2 + |a| + |b| :: now[i] == was[i + 1]
    ensures HoldsString(now, 1, a + b)
  {
    var t, s := a + [c] + b, a + b;
    assert forall i | 0 <= i < |t| :: was[1 + i] == was[1..1 + |t|][i] == t[i];
    assert forall i | 0 <= i < |s| :: now[1 + i] == s[i];
    assert now[1..1 + |s|] == s;
  }

  lemma Suffix(b: seq<byte>, at: nat, s: seq<byte>, t: seq<byte>)
    requires HoldsString(b, at, s + t)
    ensures HoldsString(b, at + |s|, t)
  {
    assert b[at + |s|..at + |s| + |t|] == (s + t)[|s|..];
  }

  /** The string case of conf_set_sym_val, up to the validity check: the value is left in
      the buffer from offset 1 on. No search starts behind the NUL of the text, and nothing
      is written there: behind a final backslash the search meets that NUL. */
  method UnquoteInPlace(buf: array<byte>, ghost t: CString) returns (r: Outcome, ghost last: nat)
    requires HoldsString(buf[..], 0, t)
    modifies buf
    ensures r == OutcomeOf(Unquoted(t))
    ensures Unquoted(t).Value? ==> HoldsString(buf[..], 1, Unquoted(t).text)
    ensures last <= |t| && forall i | |t| <= i < buf.Length :: buf[i] == old(buf[i])
  {
    hide Unescaped, Plain, HoldsString, StrLen;
    FirstByte(buf[..], t);
    last := 0;
    if buf[0] != QUOTE { return NoString, last; }
    ghost var done: CString, rest: CString := [], t[1..];
    var p2 := 1;
    assert done + rest == t[1..] && Behind(done, Unescaped(rest)) == Unescaped(t[1..]);
    while true
      invariant p2 + |rest| <= |t| && HoldsString(buf[..], p2, rest)
      invariant rest != [] ==> p2 == 1 + |done| && HoldsString(buf[..], 1, done + rest)
      invariant Behind(done, Unescaped(rest)) == Unescaped(t[1..])
      invariant last <= |t| < buf.Length && forall i | |t| <= i < buf.Length :: buf[i] == old(buf[i])
      decreases |rest|
    {
      UnescapedNext(done, rest);
      last := p2;
      var l, length := NextSpecial(buf, p2, rest);
      // strpbrk finds nothing.
      if l == length { return Invalid, last; }
      CutBehind(done, rest, l);
      p2 := p2 + l;
      if buf[p2] == QUOTE {
        CutAt(buf, p2, done + rest[..l], rest[l..]);
        return ValueSet, last;
      }
      done, rest := DropBackslash(buf, p2, done, rest, l, Unescaped(t[1..]));
      p2 := p2 + 1;
    }
  }

  /** A backslash is taken out; the text goes on behind what it escapes, if anything. */
  method DropBackslash(buf: array<byte>, p2: nat, ghost done: CString, ghost rest: CString, ghost l: nat,
                       ghost whole: Value)
      returns (ghost done': CString, ghost rest': CString)
    requires l < |rest| && p2 == 1 + |done| + l && HoldsString(buf[..], 1, done + rest)
    requires l == Plain(rest) && rest[l] == BACKSLASH && Behind(done, Unescaped(rest)) == whole
    modifies buf
    ensures |rest'| < |rest| && p2 + 1 + |rest'| <= 1 + |done| + |rest| && HoldsString(buf[..], p2 + 1, rest')
    ensures rest' != [] ==> p2 + 1 == 1 + |done'| && HoldsString(buf[..], 1, done' + rest')
    ensures Behind(done', Unescaped(rest')) == whole
    ensures forall i | 1 + |done| + |rest| <= i < buf.Length :: buf[i] == old(buf[i])
  {
    hide Unescaped, Plain, HoldsString, StrLen, Behind;
    UnescapedNext(done, rest);
    ghost var kept: CString := done + rest[..l];
    AroundEscape(done, rest, l);
    ShiftLeft(buf, p2, kept, rest[l], rest[l + 1..]);
    NextText(buf[..], kept, rest[l + 1..]);
    if l + 1 == |rest| {
      UnescapedNext(kept, []);
      done', rest' := kept, [];
    } else {
      done', rest' := kept + [rest[l + 1]], rest[l + 2..];
    }
  }

  /** Where the search goes on: behind an escaped byte, or on the old NUL. */
  lemma NextText(b: seq<byte>, kept: CString, tail: CString)
    requires HoldsString(b, 1, kept + tail) && 2 + |kept| + |tail| < |b| && b[2 + |kept| + |tail|] == 0
    ensures tail == [] ==> HoldsString(b, 2 + |kept|, [])
    ensures tail != [] ==> HoldsString(b, 2 + |kept|, tail[1..])
  {
    if tail != [] {
      assert kept + tail == (kept + tail[..1]) + tail[1..];
      Suffix(b, 1, kept + tail[..1], tail[1..]);
    }
  }

  /** strlen and strpbrk at an offset. */
  method NextSpecial(buf: array<byte>, p2: nat, ghost rest: CString) returns (l: nat, length: nat)
    requires HoldsString(buf[..], p2, rest)
    ensures length == |rest| && l == Plain(rest) && p2 + length < buf.Length
    ensures l < length ==> buf[p2 + l] == rest[l] && Special(rest[l])
  {
    hide Plain, StrLen, Special;
    HeldText(buf[..], p2, rest);
    length := StrLen(buf[..], p2).chars;
    var text := buf[p2..p2 + length];
    assert text == rest;
    l := Plain(text);
  }

  /** The text around a backslash, and around the byte it escapes. */
  lemma AroundEscape(a: seq<byte>, b: seq<byte>, l: nat)
    requires l < |b|
    ensures a + b[..l] + [b[l]] + b[l + 1..] == a + b
    ensures l + 1 < |b| ==> a + b[..l] + b[l + 1..] == a + b[..l] + [b[l + 1]] + b[l + 2..]
  {
  }

  lemma CutBehind(a: seq<byte>, b: seq<byte>, l: nat)
    requires l <= |b|
    ensures a + b == a + b[..l] + b[l..]
  {
  }

  lemma FirstByte(b: seq<byte>, t: CString)
    requires HoldsString(b, 0, t)
    ensures |b| > 0 && (b[0] == QUOTE <==> t != [] && t[0] == QUOTE)
    ensures t != [] ==> HoldsString(b, 1, t[1..])
  {
    if t != [] {
      assert b[0] == b[0..|t|][0] == t[0];
      Suffix(b, 0, t[..1], t[1..]);
      assert t[..1] + t[1..] == t;
    }
  }

  /** A NUL over the quote ends the text there. */
  method CutAt(buf: array<byte>, p2: nat, ghost a: CString, ghost b: CString)
    requires b != [] && HoldsString(buf[..], 1, a + b) && p2 == 1 + |a|
    modifies buf
    ensures HoldsString(buf[..], 1, a)
    ensures forall i | 0 <= i < buf.Length && i != p2 :: buf[i] == old(buf[i])
  {
    assert buf[1..1 + |a + b|][..|a|] == a;
    buf[p2] := 0;
    assert buf[1..1 + |a|] == a;
  }

  /** Writing a string and reading it in place: it comes back, from offset 1 on. */
  method EscapeAndBack(input: CString) returns (buf: array<byte>, r: Outcome)
    ensures fresh(buf) && buf.Length == |Quoted(input)| + 1
    ensures r == ValueSet && HoldsString(buf[..], 1, input)
  {
    hide Escaped, Unescaped, HoldsString;
    buf := EscapeStringValue(input);
    EscapedNulFree(input);
    QuotedReadsBack(input, []);
    assert Quoted(input) + [] == Quoted(input);
    ghost var last;
    r, last := UnquoteInPlace(buf, Quoted(input));
  }
}
