/** Strings of characters in UTF-8 and UTF-16, and the segments of a path. */
module Text {
  import opened Bytes
  import opened Utf

  /** The codings of a string. */
  function Text8(cs: seq<scalar>): (s: seq<byte>) {
    if cs == [] then [] else Utf8(cs[0]) + Text8(cs[1..])
  }

  function Text16(cs: seq<scalar>): (u: seq<unit>) {
    if cs == [] then [] else Utf16(cs[0]) + Text16(cs[1..])
  }

  lemma {:induction false} Text16Append(a: seq<scalar>, b: seq<scalar>)
    ensures Text16(a + b) == Text16(a) + Text16(b)
  {
    hide Utf16;
    if a == [] {
      assert a + b == b;
    } else {
      assert (a + b)[1..] == a[1..] + b;
      Text16Append(a[1..], b);
    }
  }

  lemma {:induction false} Text8Append(a: seq<scalar>, b: seq<scalar>)
    ensures Text8(a + b) == Text8(a) + Text8(b)
  {
    hide Utf8;
    if a == [] {
      assert a + b == b;
    } else {
      assert (a + b)[1..] == a[1..] + b;
      Text8Append(a[1..], b);
    }
  }

  lemma TextOne(c: scalar)
    requires IsScalar(c)
    ensures Text16([c]) == Utf16(c) && Text8([c]) == Utf8(c)
  {
    assert [c][1..] == [];
  }

  // ---------------------------------------------------------------- segments of a path

  predicate IsSeparator(c: nat) { c == 47 || c == 92 }

  /** The characters a name may not have: * : < > | " ? and DEL. */
  predicate IsIllegal(c: nat) { c == 42 || c == 58 || c == 60 || c == 62 || c == 124 || c == 34 || c == 63 || c == 127 }

  predicate Stops(c: nat) { c < 32 || IsSeparator(c) }

  datatype Segment = Bad | Chars(cs: seq<scalar>)

  /** The characters of the path segment at i, up to a separator or a control character. */
  function SegmentAt(s: seq<byte>, i: nat): (g: Segment)
    ensures g.Chars? ==> forall k :: 0 <= k < |g.cs| ==> !Stops(g.cs[k]) && !IsIllegal(g.cs[k])
    decreases if i <= |s| then |s| - i else 0
  {
    var c := Coded(s, i);
    if c == -1 then Bad
    else if Stops(c) then Chars([])
    else if IsIllegal(c) then Bad
    else if i >= |s| then Bad
    else
      CodedIsScalar(s, i);
      EncodesDecoded(s, i);
      match SegmentAt(s, i + CodedLength(At(s, i)))
      case Bad => Bad
      case Chars(cs) => Chars([c as scalar] + cs)
  }

  /** Where the segment at i ends: the place of the first character that does not belong to it. */
  function EndOf(s: seq<byte>, i: nat): (e: nat)
    ensures i <= e
    decreases if i <= |s| then |s| - i else 0
  {
    var c := Coded(s, i);
    if c == -1 || Stops(c) || IsIllegal(c) || i >= |s| then i
    else
      EncodesDecoded(s, i);
      EndOf(s, i + CodedLength(At(s, i)))
  }

  /** The place after the separators at p. */
  function AfterSeparators(s: seq<byte>, p: nat): (q: nat)
    ensures p <= q
    decreases if p <= |s| then |s| - p else 0
  {
    if IsSeparator(At(s, p)) then AfterSeparators(s, p + 1) else p
  }

  /** Where a path goes on after its segment at i, and whether it does not. */
  function NextSegment(s: seq<byte>, i: nat): (nat, bool) {
    var e := EndOf(s, i);
    if Coded(s, e) < 32 then (e + 1, true)
    else var q := AfterSeparators(s, e + 1); (q, At(s, q) < 32)
  }

  /** The shortest coding of legal characters, followed by a stop, is read as those characters. */
  lemma {:induction false} SegmentOf(s: seq<byte>, i: nat, cs: seq<scalar>)
    requires forall k :: 0 <= k < |cs| ==> !Stops(cs[k]) && !IsIllegal(cs[k])
    requires Holds(s, i, Text8(cs)) && Coded(s, i + |Text8(cs)|) != -1 && Stops(Coded(s, i + |Text8(cs)|))
    ensures SegmentAt(s, i) == Chars(cs) && EndOf(s, i) == i + |Text8(cs)|
    decreases |cs|
  {
    hide Utf8, Coded, CodedLength, Holds;
    if cs != [] {
      var c := cs[0];
      HeldApart(s, i, Utf8(c), Text8(cs[1..]));
      HeldWithin(s, i, Utf8(c));
      DecodesEncoded(s, i, c);
      SegmentOf(s, i + |Utf8(c)|, cs[1..]);
      assert [c] + cs[1..] == cs;
    }
  }

  lemma HeldWithin(s: seq<byte>, i: nat, u: seq<byte>)
    requires Holds(s, i, u) && u != []
    ensures i < |s|
  {
  }

  // ---------------------------------------------------------------- trailing spaces and dots

  predicate IsTrailing(u: nat) { u == 32 || u == 46 }

  /** Without trailing spaces and dots. */
  function Trimmed(u: seq<unit>): (r: seq<unit>)
    ensures r <= u && (r != [] ==> !IsTrailing(r[|r| - 1])) && forall k :: |r| <= k < |u| ==> IsTrailing(u[k])
  {
    if u != [] && IsTrailing(u[|u| - 1]) then Trimmed(u[..|u| - 1]) else u
  }
}
