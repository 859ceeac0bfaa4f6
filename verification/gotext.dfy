/**
 * Go strings are byte sequences. This module gives them a Dafny type and
 * models the handful of `strings` helpers the application relies on, each
 * restricted to the ASCII behaviour that matters for the application's
 * literals.
 */
module GoText {
  import opened Results

  newtype byte = b: int | 0 <= b < 0x100

  type Bytes = seq<byte>

  /**
   * The byte of an ASCII character; string literals are written as
   * sequences of these, e.g. [B('.'), B('/')] for "./".
   */
  function B(c: char): byte
    requires c as int < 0x80
  {
    c as int as byte
  }

  /** strings.HasPrefix */
  predicate HasPrefix(s: Bytes, p: Bytes) {
    |p| <= |s| && s[..|p|] == p
  }

  /** `r` is a trailing part of `s`. */
  predicate IsSuffix(r: Bytes, s: Bytes) {
    |r| <= |s| && r == s[|s| - |r|..]
  }

  /** strings.TrimPrefix */
  function TrimPrefix(s: Bytes, p: Bytes): (r: Bytes)
    ensures HasPrefix(s, p) ==> s == p + r
    ensures !HasPrefix(s, p) ==> r == s
  {
    if HasPrefix(s, p) then s[|p|..] else s
  }

  /** strings.Contains, by the first position where `p` starts. */
  predicate Contains(s: Bytes, p: Bytes)
    decreases |s|
  {
    HasPrefix(s, p) || (|s| > 0 && Contains(s[1..], p))
  }

  function LowerByte(b: byte): byte {
    if B('A') <= b <= B('Z') then b + 0x20 else b
  }

  function UpperByte(b: byte): byte {
    if B('a') <= b <= B('z') then b - 0x20 else b
  }

  /** strings.ToLower, on the ASCII letters. */
  function LowerAscii(s: Bytes): (r: Bytes)
    ensures |r| == |s|
  {
    seq(|s|, i requires 0 <= i < |s| => LowerByte(s[i]))
  }

  /** ASCII upper-casing, used to state that classification ignores case. */
  function UpperAscii(s: Bytes): (r: Bytes)
    ensures |r| == |s|
  {
    seq(|s|, i requires 0 <= i < |s| => UpperByte(s[i]))
  }

  /** The ASCII white space Go's strings.TrimSpace removes. */
  predicate IsAsciiSpace(b: byte) {
    b == 0x09 || b == 0x0A || b == 0x0B || b == 0x0C || b == 0x0D || b == 0x20
  }

  function TrimLeft(s: Bytes): (r: Bytes)
    ensures |r| <= |s| && r == s[|s| - |r|..]
    ensures forall i | 0 <= i < |s| - |r| :: IsAsciiSpace(s[i])
    ensures r == [] || !IsAsciiSpace(r[0])
    decreases |s|
  {
    if |s| > 0 && IsAsciiSpace(s[0]) then TrimLeft(s[1..]) else s
  }

  function TrimRight(s: Bytes): (r: Bytes)
    ensures |r| <= |s| && r == s[..|r|]
    ensures forall i | |r| <= i < |s| :: IsAsciiSpace(s[i])
    ensures r == [] || !IsAsciiSpace(r[|r| - 1])
    decreases |s|
  {
    if |s| > 0 && IsAsciiSpace(s[|s| - 1]) then TrimRight(s[..|s| - 1]) else s
  }

  /**
   * strings.TrimSpace restricted to ASCII: removes every leading and
   * trailing ASCII white-space byte.
   */
  function TrimAsciiSpace(s: Bytes): (r: Bytes)
    ensures |r| <= |s|
    ensures r == [] || (!IsAsciiSpace(r[0]) && !IsAsciiSpace(r[|r| - 1]))
    ensures (forall i | 0 <= i < |s| :: IsAsciiSpace(s[i])) <==> r == []
  {
    var l := TrimLeft(s);
    var r := TrimRight(l);
    TrimmedAwayIsSpace(s, l, r);
    r
  }

  lemma TrimmedAwayIsSpace(s: Bytes, l: Bytes, r: Bytes)
    requires l == TrimLeft(s) && r == TrimRight(l)
    ensures r == [] ==> forall i | 0 <= i < |s| :: IsAsciiSpace(s[i])
  {
    if r == [] {
      assert l == [];
    }
  }

  /**
   * strings.SplitN(s, sep, 2) with a one-byte separator: the text before
   * the first occurrence of `c` and the text after it.
   */
  function SplitAtFirst(s: Bytes, c: byte): (r: Option<(Bytes, Bytes)>)
    ensures r.None? <==> c !in s
    ensures r.Some? ==> s == r.value.0 + [c] + r.value.1 && c !in r.value.0
    decreases |s|
  {
    if s == [] then None
    else if s[0] == c then Some(([], s[1..]))
    else match SplitAtFirst(s[1..], c)
      case None => None
      case Some((before, after)) => Some(([s[0]] + before, after))
  }

  /** strings.Split(s, sep)[0] with a one-byte separator: the text before the first `c`. */
  function BeforeFirst(s: Bytes, c: byte): (r: Bytes)
    ensures c !in r
    ensures |r| <= |s| && r == s[..|r|]
    ensures |r| < |s| ==> s[|r|] == c
    decreases |s|
  {
    if s == [] || s[0] == c then [] else [s[0]] + BeforeFirst(s[1..], c)
  }

  /** A prefix free of `c` is kept whole by BeforeFirst. */
  lemma {:induction false} BeforeFirstAfterPrefix(p: Bytes, rest: Bytes, c: byte)
    requires c !in p
    ensures BeforeFirst(p + rest, c) == p + BeforeFirst(rest, c)
    decreases |p|
  {
    if p != [] {
      assert (p + rest)[1..] == p[1..] + rest;
      BeforeFirstAfterPrefix(p[1..], rest, c);
      assert p == [p[0]] + p[1..];
    } else {
      assert p + rest == rest;
    }
  }

  lemma UpperOfSnoc(s: Bytes, b: byte)
    ensures UpperAscii(s + [b]) == UpperAscii(s) + [UpperByte(b)]
  {
  }

  lemma LowerOfUpper(s: Bytes)
    ensures LowerAscii(UpperAscii(s)) == LowerAscii(s)
  {
  }
}
