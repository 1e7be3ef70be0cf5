/** What a glob means: the set of names a segment pattern matches and the set
    of paths a pattern of segments matches. Nothing here mentions a search. */
module GlobLanguage {
  /** `*` matches any run of characters, `?` any one character, neither a separator. */
  predicate SegMatch(p: string, s: string)
    decreases |p| + |s|
  {
    if p == "" then s == ""
    else if p[0] == '*' then SegMatch(p[1..], s) || (s != "" && s[0] != '/' && SegMatch(p, s[1..]))
    else s != "" && (if p[0] == '?' then s[0] != '/' else p[0] == s[0]) && SegMatch(p[1..], s[1..])
  }

  /** `**` matches any run of segments; every other segment matches one name. */
  predicate PathMatch(p: seq<string>, w: seq<string>)
    decreases |p| + |w|
  {
    if p == [] then w == []
    else if p[0] == "**" then PathMatch(p[1..], w) || (w != [] && PathMatch(p, w[1..]))
    else w != [] && SegMatch(p[0], w[0]) && PathMatch(p[1..], w[1..])
  }

  predicate IsName(s: string) {
    s != "" && '/' !in s
  }

  /** A run of names, possibly empty. */
  predicate AllNames(w: seq<string>) {
    forall k :: 0 <= k < |w| ==> IsName(w[k])
  }

  /** A concrete path: at least one name. */
  predicate IsConcrete(w: seq<string>) {
    w != [] && AllNames(w)
  }

  ghost predicate SegmentsOverlap(l: string, r: string) {
    exists s :: s != "" && SegMatch(l, s) && SegMatch(r, s)
  }

  ghost predicate PathsOverlap(l: seq<string>, r: seq<string>) {
    exists w :: IsConcrete(w) && PathMatch(l, w) && PathMatch(r, w)
  }

  /** What splitting any string on the separator gives. */
  predicate IsSplit(p: seq<string>) {
    p != [] && forall k :: 0 <= k < |p| ==> '/' !in p[k]
  }

  /** What splitting a canonical resource gives: segments are not empty either. */
  predicate IsPattern(p: seq<string>) {
    p != [] && AllNames(p)
  }

  lemma {:induction false} MatchIsSlashFree(p: string, s: string)
    requires SegMatch(p, s) && '/' !in p
    ensures '/' !in s
    decreases |p| + |s|
  {
    if p == "" {
    } else if p[0] == '*' && SegMatch(p[1..], s) {
      MatchIsSlashFree(p[1..], s);
    } else if p[0] == '*' {
      MatchIsSlashFree(p, s[1..]);
      assert s == [s[0]] + s[1..];
    } else {
      MatchIsSlashFree(p[1..], s[1..]);
      assert s == [s[0]] + s[1..];
      assert p[0] in p;
    }
  }
}
