/** Building names and paths that match a pattern: the witnesses the searches imply. */
module Samples {
  import opened GlobLanguage

  predicate CharsMeet(a: char, b: char) {
    a == '?' || b == '?' || a == b
  }

  /** A character both of two pattern characters accept, when they meet or either is `*`. */
  function CommonChar(a: char, b: char): char {
    if a != '*' && a != '?' then a else if b != '*' && b != '?' then b else 'a'
  }

  /** One more character in front: absorbed by a leading `*`, or met by the first character. */
  lemma Prepend(p: string, k: nat, k': nat, c: char, s: string)
    requires k < |p| && c != '/' && k <= k' <= k + 1
    requires if p[k] == '*' then true else k' == k + 1 && (p[k] == '?' || p[k] == c)
    requires SegMatch(p[k'..], s)
    ensures SegMatch(p[k..], [c] + s)
  {
    assert p[k..][1..] == p[k + 1..];
    assert ([c] + s)[1..] == s;
    assert SegMatch(p[k..], s) || p[k] != '*';
  }

  lemma SkipStar(p: string, k: nat, s: string)
    requires k < |p| && p[k] == '*' && SegMatch(p[k + 1..], s)
    ensures SegMatch(p[k..], s)
  {
    assert p[k..][1..] == p[k + 1..];
  }

  /** A non-empty pattern that matches nothing at all is made of `*` and matches any one character. */
  lemma {:induction false} EmptyMatchGrows(p: string)
    requires p != "" && SegMatch(p, "")
    ensures SegMatch(p, "a")
  {
    assert p[0..] == p && [p[0]] + p[1..] == p;
    Prepend(p, 0, 1, 'a', "");
    assert ['a'] + "" == "a";
  }

  /** A name that a segment pattern matches. */
  function SampleName(p: string): (s: string)
    ensures |s| == |p|
    ensures '/' !in p ==> '/' !in s && SegMatch(p, s)
  {
    if p == "" then ""
    else
      var c := CommonChar(p[0], '?');
      assert '/' !in p ==> p[0] in p;
      assert p[0..] == p;
      assert '/' !in p ==> '/' !in p[1..];
      var rest := SampleName(p[1..]);
      assert ([c] + rest)[1..] == rest;
      assert '/' !in p ==> SegMatch(p, rest) || p[0] != '*';
      [c] + rest
  }

  /** A run of names that a pattern of segments matches. */
  function SamplePath(p: seq<string>): (w: seq<string>)
    ensures AllNames(p) ==> AllNames(w) && PathMatch(p, w)
  {
    if p == [] then []
    else
      var rest := SamplePath(p[1..]);
      assert AllNames(p) ==> AllNames(p[1..]);
      if p[0] == "**" then rest
      else
        assert ([SampleName(p[0])] + rest)[1..] == rest;
        [SampleName(p[0])] + rest
  }

  /** One more name in front: absorbed by a leading `**`, or matched by the first segment. */
  lemma PrependName(p: seq<string>, k: nat, k': nat, name: string, w: seq<string>)
    requires k < |p| && k <= k' <= k + 1
    requires p[k] == "**" || (k' == k + 1 && SegMatch(p[k], name))
    requires PathMatch(p[k'..], w)
    ensures PathMatch(p[k..], [name] + w)
  {
    assert p[k..][1..] == p[k + 1..];
    assert ([name] + w)[1..] == w;
    assert PathMatch(p[k..], w) || p[k] != "**";
  }

  lemma SkipGlobStar(p: seq<string>, k: nat, w: seq<string>)
    requires k < |p| && p[k] == "**" && PathMatch(p[k + 1..], w)
    ensures PathMatch(p[k..], w)
  {
    assert p[k..][1..] == p[k + 1..];
  }

  /** A pattern with no empty segment that matches the empty run is made of `**` and matches any one name. */
  lemma {:induction false} EmptyPathGrows(p: seq<string>)
    requires p != [] && PathMatch(p, [])
    ensures PathMatch(p, ["a"])
  {
    assert p[0..] == p;
    PrependName(p, 0, 1, "a", []);
    assert ["a"] + [] == ["a"];
  }
}
