/**
 The byte-level half of path resolution: the separator searches, the in-place
 removal of duplicate separators, and the loop that edits the path vector.
 */
module PathEditing {
  import opened Bytes
  import opened PathResolution
  import opened Wrappers

  /** find_next_sep: the first separator at or after `start`. */
  function FindNextSep(path: seq<byte>, start: nat): (r: Option<nat>)
    requires start < |path|
    ensures r.Some? ==> start <= r.value < |path| && path[r.value] == SEP
                        && forall i :: start <= i < r.value ==> path[i] != SEP
    ensures r.None? ==> forall i :: start <= i < |path| ==> path[i] != SEP
    decreases |path| - start
  {
    if path[start] == SEP then Some(start)
    else if start + 1 == |path| then None
    else FindNextSep(path, start + 1)
  }

  /** find_prev_sep: the last separator at or before `start`. */
  function FindPrevSep(path: seq<byte>, start: nat): (r: Option<nat>)
    requires start < |path|
    ensures r.Some? ==> r.value <= start && path[r.value] == SEP
                        && forall i :: r.value < i <= start ==> path[i] != SEP
    ensures r.None? ==> forall i :: 0 <= i <= start ==> path[i] != SEP
    decreases start
  {
    if path[start] == SEP then Some(start)
    else if start == 0 then None
    else FindPrevSep(path, start - 1)
  }

  /** find_parent_component_start: where the component before the one at `start` begins. */
  function FindParentComponentStart(path: seq<byte>, start: nat): (r: nat)
    requires 0 < start < |path| && path[start - 1] == SEP
    requires start == 1 || SEP in path[..start - 1]
    ensures 0 < r <= start && path[r - 1] == SEP
    ensures start == 1 ==> r == 1
    ensures start > 1 ==> r < start && forall i :: r <= i < start - 1 ==> path[i] != SEP
  {
    if start == 1 then start
    else
      var prev := FindPrevSep(path, start - 2);
      prev.value + 1
  }

  /** The path with every run of separators replaced by one. */
  function Dedup(s: seq<byte>): (r: seq<byte>) {
    if |s| < 2 then s
    else if s[0] == SEP && s[1] == SEP then Dedup(s[1..])
    else [s[0]] + Dedup(s[1..])
  }

  /** path_dedup_sep, removing bytes from the vector one at a time. */
  method PathDedupSep(original: seq<byte>) returns (path: seq<byte>)
    ensures path == Dedup(original)
  {
    path := original;
    var i := 1;
    while i < |path|
      invariant 1 <= i
      invariant i <= |path| || (path == original && |original| == 0)
      invariant |original| > 0 ==> Dedup(original) == path[..i - 1] + Dedup(path[i - 1..])
      decreases |path| - i
    {
      var prev := i - 1;
      ghost var before := path;
      assert path[prev..][1..] == path[i..];
      if path[prev] == SEP && path[i] == SEP {
        path := path[..i] + path[i + 1..];
        assert path[prev..] == before[i..];
        assert path[..prev] == before[..prev];
      } else {
        assert path[..i] == path[..prev] + [path[prev]];
        i := i + 1;
      }
    }
    if |original| > 0 {
      assert path[i - 1..] == [path[i - 1]];
      assert path == path[..i - 1] + path[i - 1..];
    }
  }

  lemma {:induction false} DedupEnds(s: seq<byte>)
    requires s != []
    ensures Dedup(s) != []
    ensures Dedup(s)[0] == s[0]
    ensures EndsWithSep(Dedup(s)) == EndsWithSep(s)
    ensures |Dedup(s)| <= |s|
    decreases |s|
  {
    if |s| >= 2 {
      DedupEnds(s[1..]);
    }
  }

  lemma {:induction false} DedupNoDuplicates(s: seq<byte>)
    ensures NoDuplicateSep(Dedup(s))
    decreases |s|
  {
    if |s| >= 2 {
      DedupNoDuplicates(s[1..]);
      DedupEnds(s[1..]);
    }
  }

  lemma {:induction false} DedupComps(s: seq<byte>)
    ensures Comps(Dedup(s)) == Comps(s)
    decreases |s|
  {
    hide Comps;
    if |s| >= 2 {
      var rest := s[1..];
      assert s == [s[0]] + rest;
      DedupComps(rest);
      DedupEnds(rest);
      if s[0] == SEP {
        CompsLeadingSep(rest);
        CompsLeadingSep(Dedup(rest));
      } else {
        CompsPrepend(s[0], rest);
        CompsPrepend(s[0], Dedup(rest));
      }
    }
  }

  /** Deduplication yields the path spelled by the components and the last byte. */
  lemma DedupAbsolute(s: seq<byte>)
    requires IsAbsolute(s)
    ensures Dedup(s) == [SEP] + Joined(Comps(s), EndsWithSep(s))
  {
    DedupEnds(s);
    DedupNoDuplicates(s);
    DedupComps(s);
    AbsoluteCanonical(Dedup(s));
  }

  // ---------------------------------------------------------------------
  // How the byte vector represents a state

  /** The path vector held by the loop in state `s`. */
  function PathOf(s: State): (p: seq<byte>) {
    if s.todo == [] then [SEP] + Joined(s.done, s.sep)
    else Prefix(s.done) + Joined(s.todo, s.sep)
  }

  /** The loop's `index`: the start of the current component, or the end of the path. */
  function IndexOf(s: State): (k: nat) {
    if s.todo == [] then |PathOf(s)| else |Prefix(s.done)|
  }

  predicate WellFormed(s: State) {
    AllNames(s.done) && AllNames(s.todo) && s.links <= MAX_SYMLINKS && |PathOf(s)| <= MAX_PATH_LEN
  }

  lemma NamesAreComponents(cs: seq<seq<byte>>)
    requires AllNames(cs)
    ensures AllComponents(cs)
  {
  }

  lemma CompsOfPathAreNames(p: seq<byte>)
    requires IsPath(p)
    ensures AllNames(Comps(p))
  {
    CompsAreComponents(p);
    CompsKeepBytes(p, 0);
  }

  lemma Reassociate(a: seq<byte>, b: seq<byte>, c: seq<byte>)
    ensures a + b + c == a + (b + c)
  {
  }

  lemma JoinedUnfolds(cs: seq<seq<byte>>, sep: bool)
    requires cs != []
    ensures Joined(cs, sep) == if |cs| == 1 then cs[0] + (if sep then [SEP] else []) else cs[0] + [SEP] + Joined(cs[1..], sep)
  {
  }

  lemma JoinedHead(cs: seq<seq<byte>>, sep: bool)
    requires cs != []
    ensures Joined(cs, sep) == cs[0] + Tail(cs[1..], sep)
  {
    hide Joined;
    JoinedUnfolds(cs, sep);
    if |cs| > 1 {
      Reassociate(cs[0], [SEP], Joined(cs[1..], sep));
    }
  }

  /** The current component sits between the walked prefix and the rest. */
  lemma Layout(s: State)
    requires s.todo != []
    ensures PathOf(s) == Prefix(s.done) + s.todo[0] + Tail(s.todo[1..], s.sep)
    ensures PathOf(s)[0] == SEP
    ensures PathOf(s)[IndexOf(s) - 1] == SEP
  {
    hide Joined, Tail;
    JoinedHead(s.todo, s.sep);
    PrefixEndsWithSep(s.done);
    assert Prefix(s.done) + (s.todo[0] + Tail(s.todo[1..], s.sep))
        == Prefix(s.done) + s.todo[0] + Tail(s.todo[1..], s.sep);
  }

  lemma {:induction false} PrefixEndsWithSep(cs: seq<seq<byte>>)
    ensures EndsWithSep(Prefix(cs))
    decreases |cs|
  {
    if cs != [] {
      PrefixEndsWithSep(cs[1..]);
      assert cs == [cs[0]] + cs[1..];
      if |cs| > 1 {
        assert Prefix(cs) == [SEP] + cs[0] + Prefix(cs[1..]);
      }
    }
  }

  lemma PrefixSnoc(cs: seq<seq<byte>>, c: seq<byte>)
    ensures Prefix(cs + [c]) == Prefix(cs) + c + [SEP]
  {
    JoinedConcat(cs, [c], true);
  }

  lemma NextSepAfter(pre: seq<byte>, c: seq<byte>, tail: seq<byte>)
    requires IsComponent(c)
    requires tail == [] || tail[0] == SEP
    ensures FindNextSep(pre + c + tail, |pre|) == if tail == [] then None else Some(|pre| + |c|)
  {
    hide FindNextSep;
    var p := pre + c + tail;
    var r := FindNextSep(p, |pre|);
    forall i | |pre| <= i < |pre| + |c|
      ensures p[i] != SEP
    {
      assert p[i] == c[i - |pre|];
    }
    if tail == [] {
      assert |p| == |pre| + |c|;
    } else {
      assert p[|pre| + |c|] == tail[0];
    }
  }

  /** The next separator ends the current component. */
  lemma ComponentEnd(s: State)
    requires s.todo != [] && WellFormed(s)
    ensures IndexOf(s) < |PathOf(s)|
    ensures var next := FindNextSep(PathOf(s), IndexOf(s));
            var tail := Tail(s.todo[1..], s.sep);
            next == if tail == [] then None else Some(IndexOf(s) + |s.todo[0]|)
  {
    hide Joined;
    hide FindNextSep;
    Layout(s);
    assert IsName(s.todo[0]);
    NextSepAfter(Prefix(s.done), s.todo[0], Tail(s.todo[1..], s.sep));
  }

  /** The last-component test of the loop. */
  lemma LastComponent(s: State)
    requires s.todo != [] && WellFormed(s)
    ensures var tail := Tail(s.todo[1..], s.sep);
            s.todo[1..] == [] <==> |tail| <= 1
  {
    if s.todo[1..] != [] {
      NamesAreComponents(s.todo);
      JoinedFirstByte(s.todo[1..], s.sep);
    }
  }

  /** Removing "." keeps the prefix and drops the component with its separator. */
  lemma DrainCurrent(s: State)
    requires s.todo != []
    ensures var rest := s.todo[1..];
            var s' := s.(todo := rest, sep := s.sep || rest == []);
            var tail := Tail(rest, s.sep);
            && PathOf(s') == Prefix(s.done) + (if tail == [] then [] else tail[1..])
            && IndexOf(s') == |Prefix(s.done)|
  {
    var rest := s.todo[1..];
    var tail := Tail(rest, s.sep);
    if rest == [] {
      assert tail == [] || tail[1..] == [];
    } else {
      assert tail[1..] == Joined(rest, s.sep);
    }
  }

  lemma FirstComponent(s: State)
    requires s.todo != [] && s.done == [] && 1 < |PathOf(s)| && PathOf(s)[0] == SEP
    ensures IndexOf(s) == 1 && FindParentComponentStart(PathOf(s), 1) == 1
    ensures PathOf(s)[..1] == Prefix(DropLast(s.done)) == [SEP]
  {
  }

  /** The parent component starts where the prefix without the last component ends. */
  lemma ParentStart(s: State)
    requires s.todo != [] && WellFormed(s)
    ensures IndexOf(s) < |PathOf(s)|
    ensures PathOf(s)[0] == SEP && PathOf(s)[IndexOf(s) - 1] == SEP
    ensures FindParentComponentStart(PathOf(s), IndexOf(s)) == |Prefix(DropLast(s.done))|
    ensures PathOf(s)[..|Prefix(DropLast(s.done))|] == Prefix(DropLast(s.done))
  {
    hide Joined, FindNextSep, FindParentComponentStart;
    Layout(s);
    ComponentEnd(s);
    var p, k := PathOf(s), IndexOf(s);
    if s.done == [] {
      FirstComponent(s);
    } else {
      var up, last := DropLast(s.done), s.done[|s.done| - 1];
      assert s.done == up + [last];
      PrefixSnoc(up, last);
      PrefixEndsWithSep(up);
      ParentStartAt(p, Prefix(up), last, k);
    }
  }

  lemma ParentStartAt(p: seq<byte>, up: seq<byte>, last: seq<byte>, k: nat)
    requires k < |p| && k == |up| + |last| + 1
    requires p[..k] == up + last + [SEP]
    requires EndsWithSep(up) && up[0] == SEP && IsName(last)
    ensures p[0] == SEP && p[k - 1] == SEP
    ensures FindParentComponentStart(p, k) == |up|
    ensures p[..|up|] == up
  {
    assert p[..k][0] == SEP;
    assert p[..k][k - 1] == SEP;
    assert p[..|up|] == p[..k][..|up|];
    var r := FindParentComponentStart(p, k);
    assert forall i :: |up| <= i < k - 1 ==> p[i] == p[..k][i] == last[i - |up|];
    assert p[|up| - 1] == p[..k][|up| - 1] == SEP;
    assert r <= k - 1;
  }

  /** Moving past an ordinary component changes only the index. */
  lemma AdvancePath(s: State, child: Inode)
    requires s.todo != []
    ensures var s' := State(s.done + [s.todo[0]], child, s.todo[1..], s.sep, s.links);
            var tail := Tail(s.todo[1..], s.sep);
            && PathOf(s') == PathOf(s)
            && IndexOf(s') == IndexOf(s) + |s.todo[0]| + (if tail == [] then 0 else 1)
  {
    if s.todo[1..] == [] {
      AdvanceLast(s, child);
    } else {
      AdvanceInner(s, child);
    }
  }

  lemma AdvanceLast(s: State, child: Inode)
    requires s.todo != [] && s.todo[1..] == []
    ensures var s' := State(s.done + [s.todo[0]], child, [], s.sep, s.links);
            && PathOf(s') == PathOf(s)
            && |PathOf(s)| == IndexOf(s) + |s.todo[0]| + (if s.sep then 1 else 0)
  {
    hide Joined;
    Layout(s);
    JoinedConcat(s.done, s.todo, s.sep);
    assert s.todo == [s.todo[0]];
    assert [SEP] + Joined(s.done, true) + Joined(s.todo, s.sep) == [SEP] + (Joined(s.done, true) + Joined(s.todo, s.sep));
  }

  lemma AdvanceInner(s: State, child: Inode)
    requires s.todo != [] && s.todo[1..] != []
    ensures var s' := State(s.done + [s.todo[0]], child, s.todo[1..], s.sep, s.links);
            && PathOf(s') == PathOf(s)
            && IndexOf(s') == IndexOf(s) + |s.todo[0]| + 1
  {
    hide Joined;
    Layout(s);
    PrefixSnoc(s.done, s.todo[0]);
    Reassociate(Prefix(s.done) + s.todo[0], [SEP], Joined(s.todo[1..], s.sep));
  }

  lemma CompsOfTail(rest: seq<seq<byte>>, sep: bool)
    requires AllComponents(rest)
    ensures Comps(Tail(rest, sep)) == rest
  {
    if rest != [] {
      CompsLeadingSep(Joined(rest, sep));
      CompsOfJoined(rest, sep);
    } else {
      CompsWithoutSep([]);
      CompsLeadingSep([]);
      assert [SEP] + [] == [SEP];
    }
  }

  lemma CompsOfSpliced(s: State, target: seq<byte>)
    requires s.todo != [] && AllComponents(s.done) && AllComponents(s.todo)
    ensures var done := if IsAbsolute(target) then [] else s.done;
            Comps(Spliced(s, target)) == done + (Comps(target) + s.todo[1..])
  {
    hide Comps;
    var rest := s.todo[1..];
    var tail := Tail(rest, s.sep);
    assert AllComponents(rest);
    CompsOfTail(rest, s.sep);
    CompsConcat(target, tail);
    if IsAbsolute(target) {
      assert Spliced(s, target) == target + tail;
      assert [] + (Comps(target) + rest) == Comps(target) + rest;
    } else {
      var p := Prefix(s.done);
      PrefixEndsWithSep(s.done);
      CompsOfPrefix(s.done);
      CompsConcat(p, target + tail);
      assert Spliced(s, target) == p + (target + tail);
    }
  }

  /** After a splice and deduplication the vector represents the state `FollowLink` continues with. */
  lemma SpliceAbsolute(s: State, target: seq<byte>, root: Inode)
    requires s.todo != [] && AllComponents(s.done) && AllComponents(s.todo) && IsAbsolute(target)
    ensures var p := Spliced(s, target);
            var s' := State([], root, Comps(target) + s.todo[1..], EndsWithSep(p), s.links + 1);
            Dedup(p) == PathOf(s') && IndexOf(s') == 1
  {
    hide Comps, Dedup, Joined, PathOf, IndexOf;
    var p := Spliced(s, target);
    var todo := Comps(target) + s.todo[1..];
    DedupAbsolute(p);
    CompsOfSpliced(s, target);
    assert [] + todo == todo;
    FromRoot(root, todo, EndsWithSep(p), s.links + 1);
  }

  /** The vector of a state at the root. */
  lemma FromRoot(root: Inode, todo: seq<seq<byte>>, sep: bool, links: nat)
    ensures var s := State([], root, todo, sep, links);
            PathOf(s) == [SEP] + Joined(todo, sep) && IndexOf(s) == 1
  {
    assert [SEP] + [] == [SEP];
  }

  lemma SpliceRelative(s: State, target: seq<byte>)
    requires s.todo != [] && AllComponents(s.done) && AllComponents(s.todo)
    requires target != [] && !IsAbsolute(target)
    ensures var p := Spliced(s, target);
            var s' := State(s.done, s.inode, Comps(target) + s.todo[1..], EndsWithSep(p), s.links + 1);
            Dedup(p) == PathOf(s') && IndexOf(s') == IndexOf(s)
  {
    hide Comps;
    hide Dedup;
    hide Joined;
    var p := Spliced(s, target);
    var todo := Comps(target) + s.todo[1..];
    DedupAbsolute(p);
    CompsOfSpliced(s, target);
    CompsNonEmpty(target);
    JoinedConcat(s.done, todo, EndsWithSep(p));
    assert [SEP] + Joined(s.done, true) + Joined(todo, EndsWithSep(p))
        == [SEP] + (Joined(s.done, true) + Joined(todo, EndsWithSep(p)));
  }

  lemma CompsNonEmpty(s: seq<byte>)
    requires s != [] && s[0] != SEP
    ensures Comps(s) != []
  {
    CompsPrepend(s[0], s[1..]);
    assert s == [s[0]] + s[1..];
  }
}
