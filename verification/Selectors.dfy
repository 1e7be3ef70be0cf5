/** Resource selectors: exact paths, globs and namespaces, and when two of them meet. */
module Selectors {
  import opened CoordinationPaths
  import opened GlobLanguage
  import opened Resources
  import opened Strings

  datatype SelectorKind = Exact | Glob | Namespace {
    function Name(): string {
      match this
      case Exact => "exact"
      case Glob => "glob"
      case Namespace => "namespace"
    }
  }

  datatype Selector = Selector(kind: SelectorKind, resource: string)

  /** What `normalizeSelector` accepts: canonical, and without wildcards unless it is a glob. */
  predicate ValidSelector(s: Selector) {
    IsCanonical(s.resource) && (s.kind != Glob ==> WildcardFree(s.resource))
  }

  /** The paths a selector names; a namespace names itself and everything below. */
  predicate Names(s: Selector, path: seq<string>) {
    match s.kind
    case Exact => path == Segments(s.resource)
    case Glob => PathMatch(Segments(s.resource), path)
    case Namespace => Segments(s.resource) <= path
  }

  ghost predicate SelectorsMeet(a: Selector, b: Selector) {
    exists path :: IsConcrete(path) && Names(a, path) && Names(b, path)
  }

  /** The coordination engine on two resources. */
  method GlobPatternsOverlap(left: string, right: string) returns (overlap: bool)
    requires IsPattern(Segments(left)) && IsPattern(Segments(right))
    ensures overlap == ResourcesOverlap(left, right)
  {
    EnginesAgree(Segments(left), Segments(right));
    var found, _ := Search(Segments(left), Segments(right));
    return found;
  }

  /** `pathPrefix`, on strings. */
  predicate PathPrefix(parent: string, child: string) {
    parent == child || parent + "/" <= child
  }

  lemma {:induction false} JoinConcat(a: seq<string>, b: seq<string>)
    requires a != [] && b != []
    ensures Join(a + b, '/') == Join(a, '/') + "/" + Join(b, '/')
  {
    if |a| == 1 {
      assert (a + b)[1..] == b;
    } else {
      assert (a + b)[1..] == a[1..] + b;
      JoinConcat(a[1..], b);
    }
  }

  /** The string test is the prefix relation on segments. */
  lemma PrefixIsSegmentPrefix(parent: string, child: string)
    ensures PathPrefix(parent, child) <==> Segments(parent) <= Segments(child)
  {
    var p, c := Segments(parent), Segments(child);
    if parent + "/" <= child {
      var rest := child[|parent| + 1..];
      assert child == parent + ['/'] + rest;
      SplitConcat(parent, rest, '/');
    }
    if p <= c {
      JoinSplit(parent, '/');
      JoinSplit(child, '/');
      if p != c {
        var rest := c[|p|..];
        assert c == p + rest;
        JoinConcat(p, rest);
      }
    }
  }

  lemma {:induction false} StarMatchesAll(w: seq<string>)
    ensures PathMatch(["**"], w)
  {
    assert ["**"][1..] == [];
    if w != [] { StarMatchesAll(w[1..]); }
  }

  /** Literal segments followed by `**` match exactly the extensions of the literal path. */
  lemma {:induction false} LiteralThenStar(p: seq<string>, w: seq<string>)
    requires forall k :: 0 <= k < |p| ==> WildcardFree(p[k])
    ensures PathMatch(p + ["**"], w) <==> p <= w
    decreases |p|
  {
    if p == [] {
      assert p + ["**"] == ["**"];
      StarMatchesAll(w);
    } else {
      assert p[0] != "**" by { assert '*' in "**"; }
      assert (p + ["**"])[1..] == p[1..] + ["**"];
      if w != [] {
        LiteralSegment(p[0], w[0]);
        LiteralThenStar(p[1..], w[1..]);
        assert p <= w <==> p[0] == w[0] && p[1..] <= w[1..];
      }
    }
  }

  /** The pattern that stands for a selector: a namespace is its path followed by `**`. */
  function PatternOf(s: Selector): string {
    if s.kind == Namespace then s.resource + "/**" else s.resource
  }

  lemma PatternNames(s: Selector, path: seq<string>)
    requires ValidSelector(s)
    ensures PathMatch(Segments(PatternOf(s)), path) <==> Names(s, path)
    ensures IsPattern(Segments(PatternOf(s)))
  {
    CanonicalizationIsIdentity(s.resource);
    var p := Segments(s.resource);
    match s.kind
    case Glob =>
    case Exact =>
      LiteralParts(s.resource);
      LiteralPath(p, path);
    case Namespace =>
      LiteralParts(s.resource);
      SplitWhole("**", '/');
      SplitConcat(s.resource, "**", '/');
      assert s.resource + "/**" == s.resource + ['/'] + "**";
      LiteralThenStar(p, path);
  }

  lemma MeetIffPatternsOverlap(a: Selector, b: Selector)
    requires ValidSelector(a) && ValidSelector(b)
    ensures SelectorsMeet(a, b) <==> ResourcesOverlap(PatternOf(a), PatternOf(b))
  {
    forall path
      ensures PathMatch(Segments(PatternOf(a)), path) <==> Names(a, path)
      ensures PathMatch(Segments(PatternOf(b)), path) <==> Names(b, path)
    {
      PatternNames(a, path);
      PatternNames(b, path);
    }
  }

  lemma NamespacesMeet(a: Selector, b: Selector)
    requires ValidSelector(a) && ValidSelector(b) && a.kind == Namespace && b.kind == Namespace
    ensures SelectorsMeet(a, b) <==> PathPrefix(a.resource, b.resource) || PathPrefix(b.resource, a.resource)
  {
    PrefixIsSegmentPrefix(a.resource, b.resource);
    PrefixIsSegmentPrefix(b.resource, a.resource);
    CanonicalizationIsIdentity(a.resource);
    CanonicalizationIsIdentity(b.resource);
    var p, q := Segments(a.resource), Segments(b.resource);
    if p <= q {
      assert IsConcrete(q) && Names(a, q) && Names(b, q);
    } else if q <= p {
      assert IsConcrete(p) && Names(a, p) && Names(b, p);
    }
    if path :| IsConcrete(path) && Names(a, path) && Names(b, path) {
      assert if |p| <= |q| then p == q[..|p|] else q == p[..|q|];
    }
  }

  lemma NamespaceMeetsExact(ns: Selector, e: Selector)
    requires ValidSelector(ns) && ValidSelector(e) && ns.kind == Namespace && e.kind == Exact
    ensures SelectorsMeet(ns, e) <==> PathPrefix(ns.resource, e.resource)
  {
    PrefixIsSegmentPrefix(ns.resource, e.resource);
    CanonicalizationIsIdentity(e.resource);
    var p := Segments(e.resource);
    if Segments(ns.resource) <= p {
      assert IsConcrete(p) && Names(ns, p) && Names(e, p);
    }
  }

  /** A glob that selects the namespace root selects inside the namespace pattern too. */
  lemma RootIsInside(ns: Selector, g: Selector)
    requires ValidSelector(ns) && ValidSelector(g) && ns.kind == Namespace && g.kind == Glob
    requires ResourcesOverlap(ns.resource, g.resource)
    ensures SelectorsMeet(ns, g)
  {
    CanonicalizationIsIdentity(ns.resource);
    ConcreteOverlap(g.resource, ns.resource);
    OverlapIsSymmetric(ns.resource, g.resource);
    var p := Segments(ns.resource);
    assert IsConcrete(p) && Names(ns, p) && Names(g, p);
  }

  lemma MeetIsSymmetric(a: Selector, b: Selector)
    ensures SelectorsMeet(a, b) <==> SelectorsMeet(b, a)
  {
  }

  /** `namespaceSelectorOverlap`. */
  method NamespaceSelectorOverlap(left: Selector, right: Selector) returns (overlap: bool)
    requires ValidSelector(left) && ValidSelector(right) && (left.kind == Namespace || right.kind == Namespace)
    ensures overlap == SelectorsMeet(left, right)
  {
    if left.kind == Namespace && right.kind == Namespace {
      NamespacesMeet(left, right);
      return PathPrefix(left.resource, right.resource) || PathPrefix(right.resource, left.resource);
    }
    MeetIsSymmetric(left, right);
    var namespace := if left.kind == Namespace then left else right;
    var other := if left.kind == Namespace then right else left;
    if other.kind == Exact {
      NamespaceMeetsExact(namespace, other);
      return PathPrefix(namespace.resource, other.resource);
    }
    PatternNames(namespace, []);
    PatternNames(other, []);
    MeetIffPatternsOverlap(namespace, other);
    CanonicalizationIsIdentity(namespace.resource);
    var inside := GlobPatternsOverlap(namespace.resource + "/**", other.resource);
    if inside { return true; }
    var atRoot := GlobPatternsOverlap(namespace.resource, other.resource);
    if atRoot { RootIsInside(namespace, other); }
    return atRoot;
  }

  lemma ExactsMeet(a: Selector, b: Selector)
    requires ValidSelector(a) && ValidSelector(b) && a.kind == Exact && b.kind == Exact
    ensures SelectorsMeet(a, b) <==> a.resource == b.resource
  {
    CanonicalizationIsIdentity(a.resource);
    if a.resource == b.resource {
      assert IsConcrete(Segments(a.resource)) && Names(a, Segments(a.resource));
    }
    if Segments(a.resource) == Segments(b.resource) {
      SplitIsInjective(a.resource, b.resource, '/');
    }
  }

  /** `resourceSelectorsOverlap`: true exactly when the two sets of paths intersect. */
  method ResourceSelectorsOverlap(left: Selector, right: Selector) returns (overlap: bool)
    requires ValidSelector(left) && ValidSelector(right)
    ensures overlap == SelectorsMeet(left, right)
  {
    if left.kind == Namespace || right.kind == Namespace {
      overlap := NamespaceSelectorOverlap(left, right);
      return;
    }
    if left.kind == Exact && right.kind == Exact {
      ExactsMeet(left, right);
      return left.resource == right.resource;
    }
    PatternNames(left, []);
    PatternNames(right, []);
    MeetIffPatternsOverlap(left, right);
    overlap := GlobPatternsOverlap(left.resource, right.resource);
  }
}
