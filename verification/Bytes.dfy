/** Byte strings, fixed-width integers and dotted names.
    A Rust string is represented by its UTF-8 bytes. */
module Bytes {
  type Byte = x: int | 0 <= x < 0x100
  type U16 = x: int | 0 <= x < 0x1_0000
  type Str = seq<Byte>

  datatype Option<+T> = None | Some(value: T)
  datatype Result<+T, +E> = Ok(value: T) | Err(error: E)

  const DOT: Byte := 46

  /** Big-endian 16-bit integers, as every DNS header field is written. */
  function Be16(x: U16): (r: seq<Byte>)
    ensures |r| == 2 && r[0] as int * 0x100 + r[1] as int == x
  {
    [x / 0x100, x % 0x100]
  }

  /** The integer at an offset, if the message reaches that far. */
  function ReadBe16(bytes: seq<Byte>, at: nat): (r: Option<U16>)
    ensures r.Some? <==> at + 2 <= |bytes|
    ensures r.Some? ==> Be16(r.value) == bytes[at..at + 2]
  {
    if at + 2 <= |bytes| then Some(bytes[at] as int * 0x100 + bytes[at + 1] as int) else None
  }

  lemma Associate<T>(a: seq<T>, b: seq<T>, c: seq<T>)
    ensures a + (b + c) == a + b + c
  {
  }

  function LowerByte(b: Byte): Byte {
    if 65 <= b <= 90 then b + 32 else b
  }

  /** `str::to_ascii_lowercase`. */
  function Lower(s: Str): (r: Str)
    ensures |r| == |s| && forall i :: 0 <= i < |s| ==> r[i] == LowerByte(s[i])
  {
    seq(|s|, i requires 0 <= i < |s| => LowerByte(s[i]))
  }

  ghost predicate IsLower(s: Str) {
    forall b <- s :: !(65 <= b <= 90)
  }

  lemma LowerIdempotent(s: Str)
    ensures IsLower(Lower(s))
    ensures IsLower(s) <==> Lower(s) == s
  {
    assert IsLower(s) ==> forall i :: 0 <= i < |s| ==> s[i] in s;
    if Lower(s) == s {
      forall b | b in s ensures !(65 <= b <= 90) {
        var i :| 0 <= i < |s| && s[i] == b;
        assert Lower(s)[i] == s[i];
      }
    }
  }

  lemma LowerKeepsDots(s: Str)
    ensures DOT in Lower(s) <==> DOT in s
  {
  }

  /** `labels.join(".")`. */
  function Join(labels: seq<Str>): Str {
    if |labels| == 0 then []
    else if |labels| == 1 then labels[0]
    else labels[0] + [DOT] + Join(labels[1..])
  }

  /** Offset of the first dot, or the length when there is none: `str::find('.')`. */
  function FindDot(s: Str): (k: nat)
    ensures k <= |s| && DOT !in s[..k]
    ensures k < |s| ==> s[k] == DOT
  {
    if s == [] || s[0] == DOT then 0
    else
      var k := FindDot(s[1..]);
      assert s[..k + 1] == [s[0]] + s[1..][..k];
      k + 1
  }

  /** The dot-separated labels of a name: the inverse of `Join`. */
  function Split(s: Str): (labels: seq<Str>)
    ensures |labels| > 0
    ensures forall l <- labels :: DOT !in l
  {
    var k := FindDot(s);
    if k == |s| then (assert s[..k] == s; [s]) else [s[..k]] + Split(s[k + 1..])
  }

  lemma FirstDotIsFirst(s: Str, p: nat)
    requires p < |s| && s[p] == DOT
    ensures FindDot(s) <= p
  {
  }

  lemma FindDotIs(s: Str, k: nat)
    requires k <= |s| && DOT !in s[..k] && (k < |s| ==> s[k] == DOT)
    ensures FindDot(s) == k
  {
  }

  lemma SplitFirst(first: Str, rest: Str)
    requires DOT !in first
    ensures Split(first) == [first]
    ensures Split(first + [DOT] + rest) == [first] + Split(rest)
  {
    hide FindDot;
    var s := first + [DOT] + rest;
    assert first[..|first|] == first && s[..|first|] == first && s[|first| + 1..] == rest;
    FindDotIs(first, |first|);
    FindDotIs(s, |first|);
  }

  ghost predicate DotFree(labels: seq<Str>) {
    labels == [] || (DOT !in labels[0] && DotFree(labels[1..]))
  }

  lemma {:induction false} DotFreeMeans(labels: seq<Str>)
    ensures DotFree(labels) <==> forall l <- labels :: DOT !in l
  {
    if labels != [] {
      DotFreeMeans(labels[1..]);
      assert labels[0] in labels && forall l <- labels[1..] :: l in labels;
      assert forall l <- labels :: l == labels[0] || l in labels[1..];
    }
  }

  lemma {:induction false} SplitOfJoin(labels: seq<Str>)
    requires |labels| > 0 && DotFree(labels)
    ensures Split(Join(labels)) == labels
  {
    hide Split;
    if |labels| == 1 {
      SplitFirst(labels[0], []);
    } else {
      SplitOfJoin(labels[1..]);
      SplitFirst(labels[0], Join(labels[1..]));
    }
  }

  /** Splitting recovers joined labels exactly when no label contains a dot. */
  lemma SplitInvertsJoin(labels: seq<Str>)
    requires |labels| > 0
    ensures Split(Join(labels)) == labels <==> forall l <- labels :: DOT !in l
  {
    hide Split, Join;
    DotFreeMeans(labels);
    if DotFree(labels) { SplitOfJoin(labels); }
  }

  lemma {:induction false} JoinInvertsSplit(s: Str)
    ensures Join(Split(s)) == s
    decreases |s|
  {
    hide FindDot, Split;
    var k := FindDot(s);
    SplitStep(s);
    if k < |s| {
      JoinInvertsSplit(s[k + 1..]);
      JoinStep(s[..k], Split(s[k + 1..]));
      assert s == s[..k] + [DOT] + s[k + 1..];
    }
  }

  lemma SplitStep(s: Str)
    ensures var k := FindDot(s);
      Split(s) == if k == |s| then [s] else [s[..k]] + Split(s[k + 1..])
  {
    hide FindDot;
  }

  lemma JoinStep(first: Str, rest: seq<Str>)
    requires rest != []
    ensures Join([first] + rest) == first + [DOT] + Join(rest)
  {
    assert ([first] + rest)[1..] == rest;
  }
}
