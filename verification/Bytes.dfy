/** Bytes and the separator structure shared by every path format in the repository. */
module Bytes {

  type byte = x: int | 0 <= x < 256

  /** Path::SEPARATOR, the byte '/'. */
  const SEP: byte := 47

  /** The byte '.'. */
  const DOT: byte := 46

  /** The names of the current directory and of its parent. */
  const CURRENT: seq<byte> := [DOT]
  const PARENT: seq<byte> := [DOT, DOT]

  /** DirEntryName::MAX_LEN. */
  const MAX_NAME_LEN := 255

  function Zeros(n: nat): (s: seq<byte>)
    ensures |s| == n && forall i :: 0 <= i < n ==> s[i] == 0
  {
    seq(n, i => 0)
  }

  /** A path component: what lies between two separators, never empty. */
  predicate IsComponent(c: seq<byte>) {
    c != [] && SEP !in c
  }

  predicate AllComponents(cs: seq<seq<byte>>) {
    forall i :: 0 <= i < |cs| ==> IsComponent(cs[i])
  }

  /** What DirEntryName::try_from accepts: not empty, at most 255 bytes, no null and no separator. */
  predicate IsName(c: seq<byte>) {
    IsComponent(c) && |c| <= MAX_NAME_LEN && 0 !in c
  }

  /** Position of the first separator, or the length when there is none. */
  function FirstSep(s: seq<byte>): (k: nat)
    ensures k <= |s|
    ensures forall i :: 0 <= i < k ==> s[i] != SEP
    ensures k < |s| ==> s[k] == SEP
  {
    if s == [] || s[0] == SEP then 0 else 1 + FirstSep(s[1..])
  }

  /** The components of a path: its maximal separator-free pieces. */
  function Comps(s: seq<byte>): (cs: seq<seq<byte>>)
    decreases |s|
  {
    if s == [] then []
    else
      var k := FirstSep(s);
      (if k == 0 then [] else [s[..k]]) + (if k == |s| then [] else Comps(s[k + 1..]))
  }

  predicate EndsWithSep(s: seq<byte>) {
    s != [] && s[|s| - 1] == SEP
  }

  /** No two neighbouring separators. */
  predicate NoDuplicateSep(s: seq<byte>) {
    forall i :: 0 < i < |s| ==> !(s[i - 1] == SEP && s[i] == SEP)
  }

  /** Components joined by single separators, with one more at the end when `sep` holds. */
  function Joined(cs: seq<seq<byte>>, sep: bool): (s: seq<byte>) {
    if cs == [] then []
    else if |cs| == 1 then cs[0] + (if sep then [SEP] else [])
    else cs[0] + [SEP] + Joined(cs[1..], sep)
  }

  /** An absolute path whose components are each followed by a separator. */
  function Prefix(cs: seq<seq<byte>>): (s: seq<byte>) {
    [SEP] + Joined(cs, true)
  }

  lemma {:induction false} CompsAreComponents(s: seq<byte>)
    ensures AllComponents(Comps(s))
    decreases |s|
  {
    if s != [] && FirstSep(s) < |s| {
      CompsAreComponents(s[FirstSep(s) + 1..]);
    }
  }

  /** A byte missing from the path is missing from its components. */
  lemma {:induction false} CompsKeepBytes(s: seq<byte>, b: byte)
    requires b !in s
    ensures forall i :: 0 <= i < |Comps(s)| ==> b !in Comps(s)[i]
    decreases |s|
  {
    if s != [] && FirstSep(s) < |s| {
      CompsKeepBytes(s[FirstSep(s) + 1..], b);
    }
  }

  lemma FirstSepUnique(s: seq<byte>, k: nat)
    requires k <= |s|
    requires forall i :: 0 <= i < k ==> s[i] != SEP
    requires k < |s| ==> s[k] == SEP
    ensures FirstSep(s) == k
  {
  }

  /** The components up to and after a first separator. */
  lemma CompsAtSep(c: seq<byte>, rest: seq<byte>)
    requires SEP !in c
    ensures Comps(c + [SEP] + rest) == (if c == [] then [] else [c]) + Comps(rest)
  {
    var s := c + [SEP] + rest;
    FirstSepUnique(s, |c|);
    assert s[..|c|] == c;
    assert s[|c| + 1..] == rest;
  }

  /** A separator-free path is one component, or none when it is empty. */
  lemma CompsWithoutSep(c: seq<byte>)
    requires SEP !in c
    ensures Comps(c) == if c == [] then [] else [c]
  {
    FirstSepUnique(c, |c|);
    assert c[..|c|] == c;
  }

  lemma CompsLeadingSep(rest: seq<byte>)
    ensures Comps([SEP] + rest) == Comps(rest)
  {
    FirstSepUnique([SEP] + rest, 0);
    assert ([SEP] + rest)[1..] == rest;
  }

  lemma CompsBeforeSep(c: seq<byte>, rest: seq<byte>)
    requires SEP !in c
    ensures Comps(c + ([SEP] + rest)) == Comps(c) + Comps([SEP] + rest)
  {
    hide Comps;
    CompsLeadingSep(rest);
    CompsWithoutSep(c);
    CompsAtSep(c, rest);
    assert c + ([SEP] + rest) == c + [SEP] + rest;
  }

  lemma CompsStep(c: seq<byte>, rest: seq<byte>, t: seq<byte>)
    requires SEP !in c
    requires Comps(rest + t) == Comps(rest) + Comps(t)
    ensures Comps(c + [SEP] + rest + t) == Comps(c + [SEP] + rest) + Comps(t)
  {
    hide *;
    CompsAtSep(c, rest);
    CompsAtSep(c, rest + t);
    assert c + [SEP] + rest + t == c + [SEP] + (rest + t);
  }

  /** Splitting a path at a separator splits its components. */
  lemma {:induction false} CompsConcat(s: seq<byte>, t: seq<byte>)
    requires s == [] || t == [] || EndsWithSep(s) || t[0] == SEP
    ensures Comps(s + t) == Comps(s) + Comps(t)
    decreases |s|
  {
    hide Comps;
    if s == [] {
      assert s + t == t;
      CompsWithoutSep([]);
    } else if t == [] {
      assert s + t == s;
      CompsWithoutSep([]);
    } else if FirstSep(s) == |s| {
      assert t == [SEP] + t[1..];
      CompsBeforeSep(s, t[1..]);
    } else {
      var k := FirstSep(s);
      CompsConcat(s[k + 1..], t);
      assert s == s[..k] + [SEP] + s[k + 1..];
      CompsStep(s[..k], s[k + 1..], t);
    }
  }

  /** Prepending a byte that is not a separator lengthens the first component or starts a new one. */
  lemma CompsPrepend(b: byte, rest: seq<byte>)
    requires b != SEP
    ensures rest == [] || rest[0] == SEP ==> Comps([b] + rest) == [[b]] + Comps(rest)
    ensures rest != [] && rest[0] != SEP ==>
              Comps(rest) != [] && Comps([b] + rest) == [[b] + Comps(rest)[0]] + Comps(rest)[1..]
  {
    var s := [b] + rest;
    var k := FirstSep(rest);
    FirstSepUnique(s, k + 1);
    assert s[..k + 1] == [b] + rest[..k];
    assert s[1..] == rest;
    if k < |rest| {
      assert s[k + 2..] == rest[k + 1..];
    }
  }

  lemma CompsOfComponent(c: seq<byte>)
    requires IsComponent(c)
    ensures Comps(c) == [c]
    ensures Comps(c + [SEP]) == [c]
  {
    FirstSepUnique(c, |c|);
    assert c[..|c|] == c;
    CompsConcat(c, [SEP]);
    assert FirstSep([SEP]) == 0;
    assert Comps([SEP]) == [];
  }

  lemma {:induction false} CompsOfJoined(cs: seq<seq<byte>>, sep: bool)
    requires AllComponents(cs)
    ensures Comps(Joined(cs, sep)) == cs
    decreases |cs|
  {
    if cs == [] {
    } else if |cs| == 1 {
      CompsOfComponent(cs[0]);
      assert cs == [cs[0]];
      assert cs[0] + [] == cs[0];
    } else {
      CompsOfComponent(cs[0]);
      CompsOfJoined(cs[1..], sep);
      CompsConcat(cs[0] + [SEP], Joined(cs[1..], sep));
      assert cs == [cs[0]] + cs[1..];
    }
  }

  lemma CompsOfAbsolute(s: seq<byte>)
    ensures Comps([SEP] + s) == Comps(s)
  {
    CompsConcat([SEP], s);
    assert FirstSep([SEP]) == 0;
  }

  lemma CompsOfPrefix(cs: seq<seq<byte>>)
    requires AllComponents(cs)
    ensures Comps(Prefix(cs)) == cs
  {
    CompsOfAbsolute(Joined(cs, true));
    CompsOfJoined(cs, true);
  }

  lemma JoinedFirstByte(cs: seq<seq<byte>>, sep: bool)
    requires AllComponents(cs) && cs != []
    ensures |Joined(cs, sep)| > 0 && Joined(cs, sep)[0] == cs[0][0] && cs[0][0] != SEP
  {
    assert IsComponent(cs[0]);
    assert cs[0][0] in cs[0];
  }

  lemma {:induction false} JoinedLastByte(cs: seq<seq<byte>>, sep: bool)
    requires AllComponents(cs) && cs != []
    ensures EndsWithSep(Joined(cs, sep)) == sep
    decreases |cs|
  {
    assert IsComponent(cs[0]);
    if |cs| == 1 {
      assert cs[0][|cs[0]| - 1] in cs[0];
    } else {
      JoinedLastByte(cs[1..], sep);
      JoinedFirstByte(cs[1..], sep);
    }
  }

  /** Joining is associative once the left part ends with a separator. */
  lemma {:induction false} JoinedConcat(a: seq<seq<byte>>, b: seq<seq<byte>>, sep: bool)
    requires b != []
    ensures Joined(a + b, sep) == Joined(a, true) + Joined(b, sep)
    decreases |a|
  {
    if a == [] {
      assert a + b == b;
    } else {
      assert (a + b)[1..] == a[1..] + b;
      JoinedConcat(a[1..], b, sep);
      if |a| == 1 {
        assert a[1..] == [];
        assert Joined(a[1..], true) == [];
      }
    }
  }

  /** The trailing separator is the last byte. */
  lemma {:induction false} JoinedWithoutSep(cs: seq<seq<byte>>)
    requires cs != []
    ensures Joined(cs, true) == Joined(cs, false) + [SEP]
    decreases |cs|
  {
    if |cs| > 1 {
      JoinedWithoutSep(cs[1..]);
      assert cs[0] + [SEP] + (Joined(cs[1..], false) + [SEP]) == cs[0] + [SEP] + Joined(cs[1..], false) + [SEP];
    }
  }

  lemma {:induction false} JoinedLength(cs: seq<seq<byte>>, sep: bool)
    requires AllComponents(cs) && cs != []
    ensures |Joined(cs, sep)| >= 2 * |cs| - 1
    decreases |cs|
  {
    assert IsComponent(cs[0]);
    if |cs| > 1 {
      JoinedLength(cs[1..], sep);
    }
  }

  lemma NoDuplicateSuffix(s: seq<byte>, k: nat)
    requires NoDuplicateSep(s) && k <= |s|
    ensures NoDuplicateSep(s[k..])
  {
    var rest := s[k..];
    forall i | 0 < i < |rest|
      ensures !(rest[i - 1] == SEP && rest[i] == SEP)
    {
      assert rest[i] == s[i + k] && rest[i - 1] == s[i + k - 1];
    }
  }

  /** A path without duplicate separators is determined by its components and its last byte. */
  lemma {:induction false} RelativeCanonical(s: seq<byte>)
    requires NoDuplicateSep(s)
    requires s == [] || s[0] != SEP
    ensures s == Joined(Comps(s), EndsWithSep(s))
    ensures s != [] ==> Comps(s) != []
    decreases |s|
  {
    var k := FirstSep(s);
    var c := s[..k];
    if s == [] {
    } else if k == |s| {
      assert s == c;
      CompsWithoutSep(s);
    } else {
      var rest := s[k + 1..];
      assert s == c + [SEP] + rest;
      CompsAtSep(c, rest);
      NoDuplicateSuffix(s, k + 1);
      if rest != [] {
        assert rest[0] == s[k + 1] && s[k + 1 - 1] == SEP;
      }
      RelativeCanonical(rest);
      assert Comps(s)[1..] == Comps(rest);
    }
  }

  lemma AbsoluteCanonical(s: seq<byte>)
    requires NoDuplicateSep(s)
    requires s != [] && s[0] == SEP
    ensures s == [SEP] + Joined(Comps(s), EndsWithSep(s))
    ensures |s| > 1 <==> Comps(s) != []
  {
    var rest := s[1..];
    assert s == [SEP] + rest;
    NoDuplicateSuffix(s, 1);
    if rest != [] {
      assert rest[0] == s[1] && s[1 - 1] == SEP;
    }
    RelativeCanonical(rest);
    CompsOfAbsolute(rest);
  }
}
