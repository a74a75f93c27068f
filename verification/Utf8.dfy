/** UTF-8 as Rust decodes it: `str::from_utf8` and `String::from_utf8_lossy`. */
module Utf8 {
  import opened Bytes

  /** The first chunk of a byte string: a whole character, or the longest prefix of
      one that goes wrong, which the lossy decoder replaces as a unit. */
  datatype Chunk = Char(len: nat) | Broken(len: nat)

  const REPLACEMENT: Str := [0xEF, 0xBF, 0xBD]

  predicate Continuation(s: Str, at: nat) {
    at < |s| && 0x80 <= s[at] <= 0xBF
  }

  /** Whether the second byte may follow the first in a three- or four-byte character. */
  predicate SecondFits(first: Byte, second: Byte) {
    if first == 0xE0 then 0xA0 <= second <= 0xBF
    else if first == 0xED then 0x80 <= second <= 0x9F
    else if first == 0xF0 then 0x90 <= second <= 0xBF
    else if first == 0xF4 then 0x80 <= second <= 0x8F
    else 0x80 <= second <= 0xBF
  }

  function First(s: Str): (c: Chunk)
    requires s != []
    ensures 0 < c.len <= |s|
    ensures c.len > 1 || c.Broken? ==> forall i :: 0 <= i < c.len ==> s[i] >= 0x80
  {
    if s[0] < 0x80 then Char(1)
    else if 0xC2 <= s[0] <= 0xDF then
      if Continuation(s, 1) then Char(2) else Broken(1)
    else if 0xE0 <= s[0] <= 0xEF then
      if !(|s| > 1 && SecondFits(s[0], s[1])) then Broken(1)
      else if Continuation(s, 2) then Char(3) else Broken(2)
    else if 0xF0 <= s[0] <= 0xF4 then
      if !(|s| > 1 && SecondFits(s[0], s[1])) then Broken(1)
      else if !Continuation(s, 2) then Broken(2)
      else if Continuation(s, 3) then Char(4) else Broken(3)
    else Broken(1)
  }

  /** `str::from_utf8(s).is_ok()`. */
  predicate Valid(s: Str) {
    s == [] || (var c := First(s); c.Char? && Valid(s[c.len..]))
  }

  /** `String::from_utf8_lossy`. */
  function Lossy(s: Str): Str {
    if s == [] then []
    else
      var c := First(s);
      (if c.Char? then s[..c.len] else REPLACEMENT) + Lossy(s[c.len..])
  }

  predicate Ascii(s: Str) {
    forall b <- s :: b < 0x80
  }

  lemma FirstIsLocal(s: Str, t: Str)
    requires s != [] && First(s).Char?
    ensures First(s[..First(s).len] + t) == First(s)
  {
  }

  lemma {:induction false} LossyIsValid(s: Str)
    ensures Valid(Lossy(s))
  {
    if s != [] {
      var c := First(s);
      var head := if c.Char? then s[..c.len] else REPLACEMENT;
      var rest := Lossy(s[c.len..]);
      LossyIsValid(s[c.len..]);
      assert First(head) == Char(|head|);
      FirstIsLocal(head, rest);
      assert head[..|head|] == head;
      assert (head + rest)[|head|..] == rest;
    }
  }

  /** The lossy decoder changes a byte string exactly when it is not UTF-8. */
  lemma {:induction false} LossyFixesExactlyValid(s: Str)
    ensures Lossy(s) == s <==> Valid(s)
  {
    LossyIsValid(s);
    if Valid(s) && s != [] {
      LossyFixesExactlyValid(s[First(s).len..]);
    }
  }

  lemma {:induction false} AsciiIsValid(s: Str)
    requires Ascii(s)
    ensures Valid(s)
  {
    if s != [] {
      assert s[0] in s && First(s) == Char(1);
      assert forall b <- s[1..] :: b in s;
      AsciiIsValid(s[1..]);
    }
  }

  lemma {:induction false} LossyKeepsDots(s: Str)
    ensures DOT in Lossy(s) <==> DOT in s
  {
    if s != [] {
      var n := First(s).len;
      LossyKeepsDots(s[n..]);
      assert s == s[..n] + s[n..];
    }
  }
}
