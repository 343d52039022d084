/** Printing GalleonFS paths, and the loops behind parse, normalize, join and to_string. */
module GalleonPathText {
  import opened Bytes
  import opened GalleonPaths
  import opened Wrappers

  // ---------------------------------------------------------------------
  // Printing

  function Separated(text: seq<byte>, first: bool): (r: seq<byte>) {
    if first then text else text + [SEP]
  }

  /** One component of the printing loop; a name is not separated from a separator already there. */
  function Print1(text: seq<byte>, c: Component, first: bool): (r: seq<byte>) {
    match c
    case Root => if first then text + [SEP] else text
    case Current => Separated(text, first) + CURRENT
    case Parent => Separated(text, first) + PARENT
    case Name(name) => Separated(text, first || EndsWithSep(text)) + name
  }

  function PrintAll(components: seq<Component>): (r: seq<byte>) {
    if components == [] then []
    else
      var n := |components| - 1;
      Print1(PrintAll(components[..n]), components[n], n == 0)
  }

  /** Path::to_string. */
  function Printed(p: Path): (r: seq<byte>) {
    if p.components == [] then (if p.isAbsolute then [SEP] else CURRENT) else PrintAll(p.components)
  }

  function Text(c: Component): (t: seq<byte>) {
    match c
    case Root => []
    case Current => CURRENT
    case Parent => PARENT
    case Name(text) => text
  }

  function Tail(p: Path): (cs: seq<Component>)
    requires Shaped(p.isAbsolute, p.components)
  {
    if p.isAbsolute then p.components[1..] else p.components
  }

  function AllTexts(components: seq<Component>): (ts: seq<seq<byte>>)
    ensures |ts| == |components|
  {
    seq(|components|, i requires 0 <= i < |components| => Text(components[i]))
  }

  lemma TextIsComponent(c: Component)
    requires GoodComponent(c) && !c.Root?
    ensures IsComponent(Text(c)) && ParseComponent(Text(c)) == Ok(c)
  {
  }

  /** Parsing the texts of good components gives them back. */
  lemma {:induction false} ParseTexts(components: seq<Component>)
    requires forall i :: 0 <= i < |components| ==> GoodComponent(components[i]) && !components[i].Root?
    ensures ParseAll(AllTexts(components)) == Ok(components)
    decreases |components|
  {
    hide ParseComponent, GoodComponent;
    if components != [] {
      TextIsComponent(components[0]);
      assert AllTexts(components)[1..] == AllTexts(components[1..]);
      ParseTexts(components[1..]);
      assert [components[0]] + components[1..] == components;
    }
  }

  lemma PrintComponent(text: seq<byte>, c: Component, first: bool)
    requires GoodComponent(c) && !c.Root? && (first ==> text == [])
    ensures Comps(Print1(text, c, first)) == Comps(text) + [Text(c)]
    ensures Print1(text, c, first) != []
    ensures Print1(text, c, first)[0] == if text == [] && (first || EndsWithSep(text)) then Text(c)[0]
                                         else if text == [] then Print1(text, c, first)[0] else text[0]
  {
    hide Comps;
    TextIsComponent(c);
    CompsOfComponent(Text(c));
    if c.Name? && EndsWithSep(text) {
      CompsConcat(text, Text(c));
    } else if first {
      assert [] + Text(c) == Text(c);
      assert Comps([]) == [] by { NoComps(); }
    } else {
      CompsLeadingSep(Text(c));
      CompsConcat(text, [SEP] + Text(c));
      assert text + [SEP] + Text(c) == text + ([SEP] + Text(c));
    }
  }

  lemma NoComps()
    ensures Comps([]) == []
  {
  }

  lemma {:induction false} PrintComps(isAbsolute: bool, components: seq<Component>)
    requires Shaped(isAbsolute, components) && AllGood(components) && components != []
    ensures var text := PrintAll(components);
            && Comps(text) == AllTexts(if isAbsolute then components[1..] else components)
            && text != [] && (text[0] == SEP <==> isAbsolute)
    decreases |components|
  {
    hide Comps, Print1, GoodComponent;
    var n := |components| - 1;
    if n == 0 {
      PrintOne(isAbsolute, components);
    } else {
      ShapedPrefix(isAbsolute, components);
      PrintComps(isAbsolute, components[..n]);
      PrintComponent(PrintAll(components[..n]), components[n], false);
      if isAbsolute {
        assert components[1..][..n - 1] == components[..n][1..];
        TextsSnoc(components[1..]);
      } else {
        TextsSnoc(components);
      }
    }
  }

  lemma PrintOne(isAbsolute: bool, components: seq<Component>)
    requires Shaped(isAbsolute, components) && AllGood(components) && |components| == 1
    ensures var text := PrintAll(components);
            && Comps(text) == AllTexts(if isAbsolute then components[1..] else components)
            && text != [] && (text[0] == SEP <==> isAbsolute)
  {
    hide Comps;
    assert components[..0] == [];
    if isAbsolute {
      assert components == [Root] && PrintAll(components) == [] + [SEP];
      assert [SEP] + [] == [] + [SEP];
      CompsLeadingSep([]);
      NoComps();
      assert components[1..] == [];
    } else {
      TextIsComponent(components[0]);
      PrintComponent([], components[0], true);
      NoComps();
      assert Text(components[0])[0] in Text(components[0]);
      assert AllTexts(components) == [Text(components[0])];
    }
  }

  lemma TextsSnoc(components: seq<Component>)
    requires components != []
    ensures var n := |components| - 1;
            AllTexts(components) == AllTexts(components[..n]) + [Text(components[n])]
  {
  }

  /** Printing and parsing give a proper path back, except the empty relative one, which prints as the current directory. */
  lemma PrintThenParse(p: Path)
    requires Proper(p)
    ensures Parse(Printed(p)) == Ok(p) <==> p.components != []
  {
    hide Comps, PrintAll, ParseAll;
    if p.components != [] {
      PrintComps(p.isAbsolute, p.components);
      ParseTexts(Tail(p));
      assert p.isAbsolute ==> [Root] + p.components[1..] == p.components;
      assert !p.isAbsolute ==> [] + p.components == p.components;
    } else {
      DotParses();
    }
  }

  lemma DotParses()
    ensures Parse(CURRENT) == Ok(Path(false, [Current]))
  {
    CompsOfComponent(CURRENT);
    assert [CURRENT][1..] == [];
    assert ParseAll([CURRENT]) == Ok([Current] + []);
    assert [] + ([Current] + []) == [Current];
  }

  lemma {:induction false} ParseAllGood(texts: seq<seq<byte>>, components: seq<Component>)
    requires AllComponents(texts) && ParseAll(texts) == Ok(components)
    ensures |components| == |texts|
    ensures forall i :: 0 <= i < |components| ==> GoodComponent(components[i]) && !components[i].Root?
    decreases |texts|
  {
    if texts != [] {
      assert IsComponent(texts[0]);
      ParseAllGood(texts[1..], components[1..]);
    }
  }

  lemma {:induction false} CompsExist(path: seq<byte>)
    requires path != [] && path[0] != SEP
    ensures Comps(path) != []
  {
  }

  lemma ParsedIsProper(path: seq<byte>, p: Path)
    requires Parse(path) == Ok(p)
    ensures Proper(p) && p.components != []
  {
    hide Comps, ParseAll;
    CompsAreComponents(path);
    var rest := ParseAll(Comps(path)).value;
    ParseAllGood(Comps(path), rest);
    if path[0] != SEP {
      CompsExist(path);
      assert p.components == rest;
    }
  }

  /** The paths that parsing can produce are exactly the proper paths with a component. */
  lemma ParsedExactly(p: Path)
    ensures (exists path :: Parse(path) == Ok(p)) <==> Proper(p) && p.components != []
  {
    hide Parse, Proper;
    if path: seq<byte> :| Parse(path) == Ok(p) {
      ParsedIsProper(path, p);
    }
    if Proper(p) && p.components != [] {
      PrintThenParse(p);
    }
  }

  /** Every path that parsing produces is printed and parsed back to itself. */
  lemma ParsePrintParse(path: seq<byte>, p: Path)
    requires Parse(path) == Ok(p)
    ensures Parse(Printed(p)) == Ok(p)
  {
    hide Parse, Printed;
    ParsedIsProper(path, p);
    PrintThenParse(p);
  }

  /** Why a component is refused: more than 255 bytes, or else a null byte; "." and ".." never are. */
  predicate Refuses(c: seq<byte>, e: Error) {
    match e
    case NameTooLong => |c| > 255
    case NullByte => |c| <= 255 && 0 in c
    case EmptyPath => false
  }

  /** Components before the first refused one, or all of them. */
  predicate AcceptedBefore(texts: seq<seq<byte>>, k: nat)
    requires k <= |texts|
  {
    forall i :: 0 <= i < k ==> |texts[i]| <= 255 && 0 !in texts[i]
  }

  lemma {:induction false} ParseAllExactly(texts: seq<seq<byte>>)
    requires AllComponents(texts)
    ensures match ParseAll(texts)
            case Ok(components) => AcceptedBefore(texts, |texts|) && AllTexts(components) == texts
            case Err(e) => exists k :: 0 <= k < |texts| && AcceptedBefore(texts, k) && Refuses(texts[k], e)
    decreases |texts|
  {
    if texts != [] {
      assert IsComponent(texts[0]);
      ParseAllExactly(texts[1..]);
      var rest := ParseAll(texts[1..]);
      if ParseComponent(texts[0]).Ok? {
        assert |texts[0]| <= 255 && 0 !in texts[0] && Text(ParseComponent(texts[0]).value) == texts[0];
        if rest.Ok? {
          assert AllTexts([ParseComponent(texts[0]).value] + rest.value) == [texts[0]] + AllTexts(rest.value);
        } else {
          var k :| 0 <= k < |texts[1..]| && AcceptedBefore(texts[1..], k) && Refuses(texts[1..][k], rest.error);
          assert AcceptedBefore(texts, k + 1) && Refuses(texts[k + 1], rest.error);
        }
      } else {
        assert AcceptedBefore(texts, 0) && Refuses(texts[0], ParseComponent(texts[0]).error);
      }
    }
  }

  /**
   Theorem: what parsing answers. The empty path is refused; otherwise the first
   component of more than 255 bytes or with a null byte is; otherwise the path is
   absolute exactly when it starts with "/", and its components are the pieces
   between the separators, in order.
   */
  lemma ParseExactly(path: seq<byte>)
    ensures match Parse(path)
            case Ok(p) =>
              && path != [] && (p.isAbsolute <==> path[0] == 47)
              && Proper(p) && AllTexts(Tail(p)) == Comps(path) && AcceptedBefore(Comps(path), |Comps(path)|)
            case Err(e) =>
              if path == [] then e == EmptyPath
              else exists k :: 0 <= k < |Comps(path)| && AcceptedBefore(Comps(path), k) && Refuses(Comps(path)[k], e)
  {
    hide Comps, ParseAll;
    CompsAreComponents(path);
    ParseAllExactly(Comps(path));
    var r := Parse(path);
    if r.Ok? {
      ParsedIsProper(path, r.value);
      assert Tail(r.value) == ParseAll(Comps(path)).value;
    }
  }

  /** An absolute path that goes on with "." or ".." is printed with a second separator. */
  predicate Doubled(p: Path) {
    p.isAbsolute && |p.components| > 1 && !p.components[1].Name?
  }

  lemma SnocJoined(texts: seq<seq<byte>>, t: seq<byte>)
    requires texts != []
    ensures Joined(texts + [t], false) == Joined(texts, false) + [SEP] + t
  {
    JoinedConcat(texts, [t], false);
    JoinedWithoutSep(texts);
  }

  /** A component printed after others. */
  lemma PrintNext(head: seq<byte>, texts: seq<seq<byte>>, c: Component)
    requires texts != [] && AllComponents(texts) && GoodComponent(c) && !c.Root?
    ensures Print1(head + Joined(texts, false), c, false) == head + Joined(texts + [Text(c)], false)
  {
    hide Joined;
    SnocJoined(texts, Text(c));
    JoinedLastByte(texts, false);
    JoinedFirstByte(texts, false);
    var j := Joined(texts, false);
    assert (head + j)[|head + j| - 1] == j[|j| - 1];
    assert head + j + [SEP] + Text(c) == head + (j + [SEP] + Text(c));
  }

  lemma TextsAreComponents(components: seq<Component>)
    requires forall i :: 0 <= i < |components| ==> GoodComponent(components[i]) && !components[i].Root?
    ensures AllComponents(AllTexts(components))
  {
    forall i | 0 <= i < |components|
      ensures IsComponent(AllTexts(components)[i])
    {
      TextIsComponent(components[i]);
    }
  }

  lemma {:induction false} PrintJoins(isAbsolute: bool, components: seq<Component>)
    requires Shaped(isAbsolute, components) && AllGood(components) && components != []
    ensures PrintAll(components)
         == (if isAbsolute then [SEP] else []) + (if Doubled(Path(isAbsolute, components)) then [SEP] else [])
          + Joined(AllTexts(if isAbsolute then components[1..] else components), false)
    decreases |components|
  {
    hide GoodComponent, AllTexts, Joined, Print1;
    var n := |components| - 1;
    if n == 0 || (n == 1 && isAbsolute) {
      PrintFirst(isAbsolute, components);
    } else {
      ShapedPrefix(isAbsolute, components);
      PrintJoins(isAbsolute, components[..n]);
      var all := if isAbsolute then components[1..] else components;
      var m := |all| - 1;
      assert isAbsolute ==> components[1..][..n - 1] == components[..n][1..];
      TextsSnoc(all);
      TextsAreComponents(all[..m]);
      var head := (if isAbsolute then [SEP] else []) + (if Doubled(Path(isAbsolute, components)) then [SEP] else []);
      PrintNext(head, AllTexts(all[..m]), components[n]);
    }
  }

  lemma PrintFirst(isAbsolute: bool, components: seq<Component>)
    requires Shaped(isAbsolute, components) && AllGood(components)
    requires |components| == 1 || (|components| == 2 && isAbsolute)
    ensures PrintAll(components)
         == (if isAbsolute then [SEP] else []) + (if Doubled(Path(isAbsolute, components)) then [SEP] else [])
          + Joined(AllTexts(if isAbsolute then components[1..] else components), false)
  {
    var n := |components| - 1;
    assert components[..n][..0] == [] && components[..0] == [];
    if isAbsolute {
      assert PrintAll([Root]) == [SEP] by { assert [Root][..0] == []; }
      if n == 1 {
        assert components[..1] == [Root];
        assert AllTexts(components[1..]) == [Text(components[1])];
      } else {
        assert components == [Root] && components[1..] == [];
      }
    } else {
      assert AllTexts(components) == [Text(components[0])];
    }
  }

  /**
   Theorem: what printing gives: the texts joined by single separators, after one
   separator for an absolute path, or two where "." or ".." follows the root; a
   path without a component is printed as ".".
   */
  lemma PrintedExactly(p: Path)
    requires Proper(p)
    ensures Printed(p)
         == if p.components == [] then [46]
            else (if p.isAbsolute then [47] else []) + (if Doubled(p) then [47] else [])
                 + Joined(AllTexts(Tail(p)), false)
  {
    hide PrintAll, Joined, AllTexts;
    if p.components != [] {
      PrintJoins(p.isAbsolute, p.components);
    }
  }

  lemma {:induction false} NormalizedGood(isAbsolute: bool, components: seq<Component>)
    requires AllGood(components)
    ensures AllGood(Normalized(isAbsolute, components))
    decreases |components|
  {
    hide GoodComponent, Push;
    if components != [] {
      var n := |components| - 1;
      NormalizedGood(isAbsolute, components[..n]);
      PushGood(isAbsolute, Normalized(isAbsolute, components[..n]), components[n]);
    }
  }

  lemma PushGood(isAbsolute: bool, done: seq<Component>, c: Component)
    requires GoodComponent(c) && AllGood(done)
    ensures AllGood(Push(isAbsolute, done, c))
  {
  }

  /** A joined path can be printed and parsed back, unless it came to nothing. */
  lemma JoinedRoundTrip(p: Path, q: Path)
    requires Proper(p) && Proper(q)
    ensures Proper(Join(p, q))
    ensures Parse(Printed(Join(p, q))) == Ok(Join(p, q)) <==> Join(p, q).components != []
  {
    hide Parse, Printed, Normalized, GoodComponent;
    JoinComposes(p, q, []);
    if !q.isAbsolute {
      NormalizedGood(p.isAbsolute, p.components + q.components);
    }
    PrintThenParse(Join(p, q));
  }

  // ---------------------------------------------------------------------
  // The loops

  method ParsePath(path: seq<byte>) returns (r: Result<Path>)
    ensures r == Parse(path)
  {
    hide Comps, ParseComponent;
    if path == [] {
      return Err(EmptyPath);
    }
    var isAbsolute := path[0] == SEP;
    var components: seq<Component> := if isAbsolute then [Root] else [];
    ghost var start := components;
    var texts := Comps(path);
    assert texts[0..] == texts;
    AfterNone(ParseAll(texts));
    assert components[|start|..] == [];
    for i := 0 to |texts|
      invariant start <= components
      invariant ParseAll(texts) == After(components[|start|..], ParseAll(texts[i..]))
    {
      assert texts[i..][1..] == texts[i + 1..];
      var c := ParseComponent(texts[i]);
      match c {
        case Err(e) =>
          return Err(e);
        case Ok(component) =>
          AfterSnoc(components[|start|..], component, ParseAll(texts[i + 1..]));
          assert (components + [component])[|start|..] == components[|start|..] + [component];
          components := components + [component];
      }
    }
    assert texts[|texts|..] == [];
    assert components[|start|..] + [] == components[|start|..];
    assert components == start + components[|start|..];
    r := Ok(Path(isAbsolute, components));
  }

  function After(before: seq<Component>, r: Result<seq<Component>>): (o: Result<seq<Component>>) {
    match r
    case Err(e) => Err(e)
    case Ok(rest) => Ok(before + rest)
  }

  lemma AfterNone(r: Result<seq<Component>>)
    ensures After([], r) == r
  {
    if r.Ok? {
      assert [] + r.value == r.value;
    }
  }

  lemma AfterSnoc(before: seq<Component>, c: Component, r: Result<seq<Component>>)
    ensures After(before + [c], r) == After(before, After([c], r))
  {
    if r.Ok? {
      assert before + [c] + r.value == before + ([c] + r.value);
    }
  }

  class OwnedPath {
    const isAbsolute: bool
    var components: seq<Component>

    function Value(): (p: Path)
      reads this
    {
      Path(isAbsolute, components)
    }

    constructor (isAbsolute: bool, components: seq<Component>)
      ensures Value() == Path(isAbsolute, components)
    {
      this.isAbsolute := isAbsolute;
      this.components := components;
    }

    /** normalize: the component list is rebuilt in place. */
    method Normalize()
      modifies this
      ensures components == Normalized(isAbsolute, old(components))
    {
      var normalized: seq<Component> := [];
      for i := 0 to |components|
        invariant components == old(components)
        invariant normalized == Normalized(isAbsolute, components[..i])
      {
        assert components[..i + 1][..i] == components[..i];
        match components[i] {
          case Current =>
          case Parent =>
            if normalized != [] {
              match normalized[|normalized| - 1] {
                case Root =>
                case Parent => normalized := normalized + [Parent];
                case _ => normalized := normalized[..|normalized| - 1];
              }
            } else if !isAbsolute {
              normalized := normalized + [Parent];
            }
          case other =>
            normalized := normalized + [other];
        }
      }
      assert components[..|components|] == components;
      components := normalized;
    }

    /** join: neither path is changed. */
    method JoinWith(other: OwnedPath) returns (result: OwnedPath)
      ensures result.Value() == Join(Value(), other.Value())
      ensures result == other || fresh(result)
    {
      if other.isAbsolute {
        return other;
      }
      result := new OwnedPath(isAbsolute, components + other.components);
      result.Normalize();
    }

    method Render() returns (text: seq<byte>)
      ensures text == Printed(Value())
    {
      if components == [] {
        return if isAbsolute then [SEP] else CURRENT;
      }
      text := [];
      for i := 0 to |components|
        invariant text == PrintAll(components[..i])
      {
        assert components[..i + 1][..i] == components[..i];
        match components[i] {
          case Root =>
            if i == 0 {
              text := text + [SEP];
            }
          case Current =>
            if i > 0 {
              text := text + [SEP];
            }
            text := text + CURRENT;
          case Parent =>
            if i > 0 {
              text := text + [SEP];
            }
            text := text + PARENT;
          case Name(name) =>
            if i > 0 && !EndsWithSep(text) {
              text := text + [SEP];
            }
            text := text + name;
        }
      }
      assert components[..|components|] == components;
    }
  }
}
