/** Paths of GalleonFS: parsing, printing, normalising and joining (crates/galleonfs/src/directory.rs). */
module GalleonPaths {
  import opened Bytes
  import opened Wrappers

  datatype Component = Root | Current | Parent | Name(text: seq<byte>)

  datatype Path = Path(isAbsolute: bool, components: seq<Component>)

  datatype Error = EmptyPath | NullByte | NameTooLong

  type Result<T> = Fallible<T, Error>

  // ---------------------------------------------------------------------
  // Parsing

  function ParseComponent(text: seq<byte>): (r: Result<Component>) {
    if text == CURRENT then Ok(Current)
    else if text == PARENT then Ok(Parent)
    else if |text| > MAX_NAME_LEN then Err(NameTooLong)
    else if 0 in text then Err(NullByte)
    else Ok(Name(text))
  }

  /** The components, or the error of the first one refused. */
  function ParseAll(texts: seq<seq<byte>>): (r: Result<seq<Component>>) {
    if texts == [] then Ok([])
    else match ParseComponent(texts[0])
      case Err(e) => Err(e)
      case Ok(c) => match ParseAll(texts[1..])
        case Err(e) => Err(e)
        case Ok(rest) => Ok([c] + rest)
  }

  /** Path::parse. */
  function Parse(path: seq<byte>): (r: Result<Path>) {
    if path == [] then Err(EmptyPath)
    else
      var isAbsolute := path[0] == SEP;
      match ParseAll(Comps(path))
      case Err(e) => Err(e)
      case Ok(components) => Ok(Path(isAbsolute, (if isAbsolute then [Root] else []) + components))
  }

  /** A root stands at the start of an absolute path and nowhere else. */
  predicate Shaped(isAbsolute: bool, components: seq<Component>) {
    && (isAbsolute ==> components != [] && components[0].Root?)
    && forall i :: 0 <= i < |components| && components[i].Root? ==> i == 0 && isAbsolute
  }

  predicate GoodComponent(c: Component) {
    c.Name? ==> IsName(c.text) && c.text != CURRENT && c.text != PARENT
  }

  predicate AllGood(components: seq<Component>) {
    forall i :: 0 <= i < |components| ==> GoodComponent(components[i])
  }

  predicate Proper(p: Path) {
    Shaped(p.isAbsolute, p.components) && AllGood(p.components)
  }

  // ---------------------------------------------------------------------
  // Meaning

  /** What a component does to the stack of directories one stands in; the parent of the root is the root. */
  function Apply(c: Component, stack: seq<seq<byte>>): (r: seq<seq<byte>>) {
    match c
    case Root => []
    case Current => stack
    case Parent => if stack == [] then [] else stack[..|stack| - 1]
    case Name(text) => stack + [text]
  }

  function Eval(components: seq<Component>, stack: seq<seq<byte>>): (r: seq<seq<byte>>) {
    if components == [] then stack
    else Apply(components[|components| - 1], Eval(components[..|components| - 1], stack))
  }

  lemma {:induction false} EvalConcat(a: seq<Component>, b: seq<Component>, stack: seq<seq<byte>>)
    ensures Eval(a + b, stack) == Eval(b, Eval(a, stack))
    decreases |b|
  {
    if b == [] {
      assert a + b == a;
    } else {
      var n := |b| - 1;
      assert (a + b)[..|a| + n] == a + b[..n];
      EvalConcat(a, b[..n], stack);
    }
  }

  // ---------------------------------------------------------------------
  // Normalising

  /** One component of the normalising loop. */
  function Push(isAbsolute: bool, done: seq<Component>, c: Component): (r: seq<Component>) {
    match c
    case Current => done
    case Parent =>
      if done == [] then (if isAbsolute then done else [Parent])
      else (match done[|done| - 1]
            case Root => done
            case Parent => done + [Parent]
            case _ => done[..|done| - 1])
    case other => done + [other]
  }

  function Normalized(isAbsolute: bool, components: seq<Component>): (r: seq<Component>) {
    if components == [] then []
    else Push(isAbsolute, Normalized(isAbsolute, components[..|components| - 1]), components[|components| - 1])
  }

  /** A root, or any number of parents, and then names. */
  predicate NormalForm(isAbsolute: bool, components: seq<Component>) {
    && (isAbsolute ==> components != [] && components[0].Root?)
    && forall i :: 0 <= i < |components| ==>
         match components[i]
         case Root => isAbsolute && i == 0
         case Current => false
         case Parent => !isAbsolute && forall j :: 0 <= j < i ==> components[j].Parent?
         case Name(_) => true
  }

  lemma ShapedPrefix(isAbsolute: bool, components: seq<Component>)
    requires Shaped(isAbsolute, components) && |components| > 1
    ensures Shaped(isAbsolute, components[..|components| - 1])
  {
  }

  lemma PushNormal(isAbsolute: bool, done: seq<Component>, c: Component)
    requires NormalForm(isAbsolute, done) && !c.Root?
    ensures NormalForm(isAbsolute, Push(isAbsolute, done, c))
  {
  }

  lemma {:induction false} NormalizedIsNormal(isAbsolute: bool, components: seq<Component>)
    requires Shaped(isAbsolute, components)
    ensures NormalForm(isAbsolute, Normalized(isAbsolute, components))
    decreases |components|
  {
    hide NormalForm;
    var n := |components| - 1;
    if n <= 0 {
      OneNormal(isAbsolute, components);
    } else {
      ShapedPrefix(isAbsolute, components);
      NormalizedIsNormal(isAbsolute, components[..n]);
      PushNormal(isAbsolute, Normalized(isAbsolute, components[..n]), components[n]);
    }
  }

  lemma OneNormal(isAbsolute: bool, components: seq<Component>)
    requires Shaped(isAbsolute, components) && |components| <= 1
    ensures NormalForm(isAbsolute, Normalized(isAbsolute, components))
  {
    if components != [] {
      assert components[..0] == [];
    }
  }

  lemma PushMeaning(isAbsolute: bool, done: seq<Component>, c: Component, stack: seq<seq<byte>>)
    requires NormalForm(isAbsolute, done) || (done == [] && c.Root?)
    ensures Eval(Push(isAbsolute, done, c), stack) == Apply(c, Eval(done, stack))
  {
    var pushed := Push(isAbsolute, done, c);
    if |pushed| == |done| + 1 {
      assert pushed[..|done|] == done;
    }
  }

  /** Normalising keeps what a path means on every stack of directories. */
  lemma {:induction false} NormalizeKeepsMeaning(isAbsolute: bool, components: seq<Component>, stack: seq<seq<byte>>)
    requires Shaped(isAbsolute, components)
    ensures Eval(Normalized(isAbsolute, components), stack) == Eval(components, stack)
    decreases |components|
  {
    hide NormalForm, Push;
    if components != [] {
      var n := |components| - 1;
      var done := Normalized(isAbsolute, components[..n]);
      if n > 0 {
        ShapedPrefix(isAbsolute, components);
        NormalizeKeepsMeaning(isAbsolute, components[..n], stack);
        NormalizedIsNormal(isAbsolute, components[..n]);
      } else {
        EmptyNormal();
      }
      PushMeaning(isAbsolute, done, components[n], stack);
    }
  }

  lemma EmptyNormal()
    ensures NormalForm(false, [])
  {
  }

  // ---------------------------------------------------------------------
  // Normal forms are unique

  /** Leading parents of a normal form. */
  function Ups(components: seq<Component>): (n: nat)
    ensures n <= |components|
  {
    if components == [] then 0
    else if components[|components| - 1].Parent? then |components|
    else Ups(components[..|components| - 1])
  }

  function Texts(components: seq<Component>): (r: seq<seq<byte>>) {
    if components == [] then []
    else
      var before := Texts(components[..|components| - 1]);
      match components[|components| - 1]
      case Name(text) => before + [text]
      case _ => before
  }

  lemma {:induction false} ParentsHaveNoTexts(components: seq<Component>)
    requires forall i :: 0 <= i < |components| ==> components[i].Parent?
    ensures Texts(components) == [] && Ups(components) == |components|
    decreases |components|
  {
    if components != [] {
      ParentsHaveNoTexts(components[..|components| - 1]);
    }
  }

  lemma NormalPrefix(isAbsolute: bool, components: seq<Component>)
    requires NormalForm(isAbsolute, components) && |components| > (if isAbsolute then 1 else 0)
    ensures NormalForm(isAbsolute, components[..|components| - 1])
  {
  }

  function Climbed(stack: seq<seq<byte>>, n: nat): (r: seq<seq<byte>>) {
    if n <= |stack| then stack[..|stack| - n] else []
  }

  /** A normal form climbs and then descends. */
  lemma {:induction false} EvalNormal(isAbsolute: bool, components: seq<Component>, stack: seq<seq<byte>>)
    requires NormalForm(isAbsolute, components)
    ensures Eval(components, stack)
            == (if isAbsolute then [] else Climbed(stack, Ups(components))) + Texts(components)
    decreases |components|
  {
    var n := |components| - 1;
    if components == [] {
      assert stack[..|stack|] + [] == stack;
    } else if components[n].Root? {
      assert components[..n] == [];
    } else {
      NormalPrefix(isAbsolute, components);
      EvalNormal(isAbsolute, components[..n], stack);
      if components[n].Parent? {
        ParentsHaveNoTexts(components);
        ParentsHaveNoTexts(components[..n]);
        assert Climbed(stack, n) + [] == Climbed(stack, n);
      } else {
        hide NormalForm, Climbed;
        var base := if isAbsolute then [] else Climbed(stack, Ups(components));
        assert base + Texts(components[..n]) + [components[n].text] == base + (Texts(components[..n]) + [components[n].text]);
      }
    }
  }

  /** A normal form is given by its leading parents and its names. */
  lemma {:induction false} SameParts(isAbsolute: bool, a: seq<Component>, b: seq<Component>)
    requires NormalForm(isAbsolute, a) && NormalForm(isAbsolute, b)
    requires Ups(a) == Ups(b) && Texts(a) == Texts(b)
    ensures a == b
    decreases |a|
  {
    hide NormalForm, Texts, Ups;
    NoNames(isAbsolute, a);
    NoNames(isAbsolute, b);
    if Texts(a) != [] {
      var n, m := |a| - 1, |b| - 1;
      NamePrefix(isAbsolute, a);
      NamePrefix(isAbsolute, b);
      SnocTexts(a);
      SnocTexts(b);
      SameParts(isAbsolute, a[..n], b[..m]);
      assert a == a[..n] + [a[n]] && b == b[..m] + [b[m]];
    }
  }

  lemma NamePrefix(isAbsolute: bool, a: seq<Component>)
    requires NormalForm(isAbsolute, a) && a != [] && a[|a| - 1].Name?
    ensures NormalForm(isAbsolute, a[..|a| - 1])
  {
    NormalPrefix(isAbsolute, a);
  }

  lemma SnocTexts(a: seq<Component>)
    requires a != [] && a[|a| - 1].Name?
    ensures var t := Texts(a);
            t != [] && Texts(a[..|a| - 1]) == t[..|t| - 1] && a[|a| - 1].text == t[|t| - 1]
    ensures Ups(a) == Ups(a[..|a| - 1])
  {
  }

  /** Without a name at its end, a normal form is the root or a row of parents. */
  lemma NoNames(isAbsolute: bool, a: seq<Component>)
    requires NormalForm(isAbsolute, a)
    ensures a == [] || !a[|a| - 1].Name? <==> Texts(a) == []
    ensures Texts(a) == [] && isAbsolute ==> a == [Root]
    ensures Texts(a) == [] && !isAbsolute ==> |a| == Ups(a) && forall i :: 0 <= i < |a| ==> a[i] == Parent
  {
    if a != [] && a[|a| - 1].Parent? {
      ParentsHaveNoTexts(a);
    }
  }

  function Repeat(text: seq<byte>, n: nat): (s: seq<seq<byte>>)
    ensures |s| == n
  {
    seq(n, i => text)
  }

  predicate AllNames(stack: seq<seq<byte>>) {
    forall i :: 0 <= i < |stack| ==> IsName(stack[i])
  }

  /** Two paths that lead to the same place from every stack of named directories. */
  ghost predicate SameMeaning(a: seq<Component>, b: seq<Component>) {
    forall stack :: AllNames(stack) ==> Eval(a, stack) == Eval(b, stack)
  }

  const NAME_A: seq<byte> := [97]
  const NAME_B: seq<byte> := [98]

  lemma RepeatNames(n: nat)
    ensures AllNames(Repeat(NAME_A, n)) && AllNames(Repeat(NAME_B, n))
  {
  }

  /** A normal form that climbs less, or not at all, is told apart by where it leads. */
  lemma ClimbsDiffer(a: seq<Component>, b: seq<Component>, aAbsolute: bool)
    requires NormalForm(aAbsolute, a) && NormalForm(false, b)
    requires aAbsolute || Ups(b) < Ups(a)
    ensures !SameMeaning(a, b)
  {
    hide NormalForm, Eval, AllNames;
    var height := if aAbsolute then Ups(b) + 1 else Ups(a);
    var sa, sb := Repeat(NAME_A, height), Repeat(NAME_B, height);
    RepeatNames(height);
    EvalNormal(aAbsolute, a, sa);
    EvalNormal(aAbsolute, a, sb);
    EvalNormal(false, b, sa);
    EvalNormal(false, b, sb);
    assert Climbed(sa, Ups(a)) == Climbed(sb, Ups(a)) || aAbsolute;
    assert Eval(a, sa) == Eval(a, sb);
    assert Eval(b, sa)[0] == NAME_A && Eval(b, sb)[0] == NAME_B;
  }

  /** Paths in normal form that mean the same are the same. */
  lemma NormalFormUnique(aAbsolute: bool, a: seq<Component>, bAbsolute: bool, b: seq<Component>)
    requires NormalForm(aAbsolute, a) && NormalForm(bAbsolute, b) && SameMeaning(a, b)
    ensures aAbsolute == bAbsolute && a == b
  {
    hide NormalForm, Eval, AllNames;
    if aAbsolute && !bAbsolute {
      ClimbsDiffer(a, b, true);
    } else if bAbsolute && !aAbsolute {
      ClimbsDiffer(b, a, true);
    } else if !aAbsolute && Ups(b) < Ups(a) {
      ClimbsDiffer(a, b, false);
    } else if !aAbsolute && Ups(a) < Ups(b) {
      ClimbsDiffer(b, a, false);
    } else {
      SameClimb(aAbsolute, a, b);
    }
  }

  lemma SameClimb(isAbsolute: bool, a: seq<Component>, b: seq<Component>)
    requires NormalForm(isAbsolute, a) && NormalForm(isAbsolute, b) && SameMeaning(a, b)
    requires isAbsolute || Ups(a) == Ups(b)
    ensures a == b
  {
    hide NormalForm, Eval, AllNames;
    var stack := Repeat(NAME_A, Ups(a));
    RepeatNames(Ups(a));
    EvalNormal(isAbsolute, a, stack);
    EvalNormal(isAbsolute, b, stack);
    assert [] + Texts(a) == Texts(a) && [] + Texts(b) == Texts(b);
    if isAbsolute {
      AbsoluteUps(a);
      AbsoluteUps(b);
    }
    SameParts(isAbsolute, a, b);
  }

  lemma {:induction false} AbsoluteUps(a: seq<Component>)
    requires NormalForm(true, a)
    ensures Ups(a) == 0
    decreases |a|
  {
    if |a| > 1 {
      NormalPrefix(true, a);
      AbsoluteUps(a[..|a| - 1]);
    }
  }

  /** Normalising twice is normalising once. */
  lemma NormalizeIdempotent(isAbsolute: bool, components: seq<Component>)
    requires Shaped(isAbsolute, components)
    ensures Normalized(isAbsolute, Normalized(isAbsolute, components)) == Normalized(isAbsolute, components)
  {
    hide Normalized, Eval, AllNames;
    var once := Normalized(isAbsolute, components);
    NormalizedIsNormal(isAbsolute, components);
    NormalIsShaped(isAbsolute, once);
    NormalizedIsNormal(isAbsolute, once);
    forall stack
      ensures Eval(Normalized(isAbsolute, once), stack) == Eval(once, stack)
    {
      NormalizeKeepsMeaning(isAbsolute, once, stack);
    }
    NormalFormUnique(isAbsolute, Normalized(isAbsolute, once), isAbsolute, once);
  }

  lemma NormalIsShaped(isAbsolute: bool, components: seq<Component>)
    requires NormalForm(isAbsolute, components)
    ensures Shaped(isAbsolute, components)
  {
  }

  /** Two paths mean the same exactly when they normalise alike. */
  lemma SameMeaningIffNormalizedAlike(p: Path, q: Path)
    requires Shaped(p.isAbsolute, p.components) && Shaped(q.isAbsolute, q.components)
    ensures SameMeaning(p.components, q.components) <==>
              p.isAbsolute == q.isAbsolute
              && Normalized(p.isAbsolute, p.components) == Normalized(q.isAbsolute, q.components)
  {
    hide Normalized, Eval, AllNames, Shaped, NormalForm;
    var a, b := Normalized(p.isAbsolute, p.components), Normalized(q.isAbsolute, q.components);
    NormalizedIsNormal(p.isAbsolute, p.components);
    NormalizedIsNormal(q.isAbsolute, q.components);
    forall stack
      ensures Eval(a, stack) == Eval(p.components, stack) && Eval(b, stack) == Eval(q.components, stack)
    {
      NormalizeKeepsMeaning(p.isAbsolute, p.components, stack);
      NormalizeKeepsMeaning(q.isAbsolute, q.components, stack);
    }
    if SameMeaning(p.components, q.components) {
      NormalFormUnique(p.isAbsolute, a, q.isAbsolute, b);
    }
  }

  // ---------------------------------------------------------------------
  // Joining

  /** Path::join: an absolute path is returned as it is. */
  function Join(p: Path, q: Path): (r: Path) {
    if q.isAbsolute then q else Path(p.isAbsolute, Normalized(p.isAbsolute, p.components + q.components))
  }

  lemma ShapedConcat(isAbsolute: bool, a: seq<Component>, b: seq<Component>)
    requires Shaped(isAbsolute, a) && Shaped(false, b)
    ensures Shaped(isAbsolute, a + b)
  {
  }

  /** Joining composes meanings. */
  lemma JoinComposes(p: Path, q: Path, stack: seq<seq<byte>>)
    requires Shaped(p.isAbsolute, p.components) && Shaped(q.isAbsolute, q.components)
    ensures Shaped(Join(p, q).isAbsolute, Join(p, q).components)
    ensures Eval(Join(p, q).components, stack) == Eval(q.components, Eval(p.components, stack))
  {
    hide Normalized, Eval;
    if q.isAbsolute {
      AbsoluteConstant(q.components, stack, Eval(p.components, stack));
    } else {
      var both := p.components + q.components;
      ShapedConcat(p.isAbsolute, p.components, q.components);
      NormalizeKeepsMeaning(p.isAbsolute, both, stack);
      NormalizedIsNormal(p.isAbsolute, both);
      NormalIsShaped(p.isAbsolute, Normalized(p.isAbsolute, both));
      EvalConcat(p.components, q.components, stack);
    }
  }

  /** An absolute path leads to one place. */
  lemma {:induction false} AbsoluteConstant(components: seq<Component>, s: seq<seq<byte>>, t: seq<seq<byte>>)
    requires components != [] && components[0].Root?
    ensures Eval(components, s) == Eval(components, t)
    decreases |components|
  {
    if |components| > 1 {
      AbsoluteConstant(components[..|components| - 1], s, t);
    }
  }

  /** Joining is associative, component for component. */
  lemma JoinAssociative(p: Path, q: Path, r: Path)
    requires Shaped(p.isAbsolute, p.components) && Shaped(q.isAbsolute, q.components)
    requires Shaped(r.isAbsolute, r.components)
    ensures Join(Join(p, q), r) == Join(p, Join(q, r))
  {
    if !q.isAbsolute && !r.isAbsolute {
      hide Normalized, Eval, AllNames, Shaped, NormalForm;
      var left, right := Join(Join(p, q), r), Join(p, Join(q, r));
      JoinNormal(Join(p, q), r) by { JoinComposes(p, q, []); }
      JoinNormal(p, Join(q, r)) by { JoinComposes(q, r, []); }
      forall stack
        ensures Eval(left.components, stack) == Eval(right.components, stack)
      {
        JoinTwice(p, q, r, stack);
      }
      NormalFormUnique(p.isAbsolute, left.components, p.isAbsolute, right.components);
    }
  }

  lemma JoinNormal(p: Path, q: Path)
    requires Shaped(p.isAbsolute, p.components) && Shaped(q.isAbsolute, q.components) && !q.isAbsolute
    ensures NormalForm(p.isAbsolute, Join(p, q).components)
  {
    ShapedConcat(p.isAbsolute, p.components, q.components);
    NormalizedIsNormal(p.isAbsolute, p.components + q.components);
  }

  lemma JoinTwice(p: Path, q: Path, r: Path, stack: seq<seq<byte>>)
    requires Shaped(p.isAbsolute, p.components) && Shaped(q.isAbsolute, q.components)
    requires Shaped(r.isAbsolute, r.components)
    ensures Eval(Join(Join(p, q), r).components, stack) == Eval(Join(p, Join(q, r)).components, stack)
  {
    hide Join, Eval, Shaped;
    JoinComposes(p, q, stack);
    JoinComposes(Join(p, q), r, stack);
    JoinComposes(q, r, Eval(p.components, stack));
    JoinComposes(p, Join(q, r), stack);
  }
}
