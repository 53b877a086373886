/** Absolute paths as component lists. */
module Paths {

  /** The components of a path and whether its text ends in a slash. */
  datatype Path = Path(parts: seq<string>, open: bool)

  const ROOT := Path([], false)

  /** The pieces of a text between slashes; there is always one more than there are slashes. */
  function Split(s: string): (r: seq<string>)
    ensures |r| > 0
  {
    if s == "" then [""]
    else if s[0] == '/' then [""] + Split(s[1..])
    else [[s[0]] + Split(s[1..])[0]] + Split(s[1..])[1..]
  }

  /** One component: empty and "." do nothing, ".." drops the last one if there is one. */
  function Apply(p: Path, c: string): Path {
    if c == "" || c == "." then p
    else if c == ".." then (if p.parts == [] then p else Path(p.parts[..|p.parts| - 1], |p.parts| > 1))
    else Path(p.parts + [c], false)
  }

  function Walk(p: Path, cs: seq<string>): Path
    decreases |cs|
  {
    if cs == [] then p else Walk(Apply(p, cs[0]), cs[1..])
  }

  /** "/a/b" for the components a, b. */
  function Text(parts: seq<string>): string {
    if parts == [] then "" else Text(parts[..|parts| - 1]) + "/" + parts[|parts| - 1]
  }

  function Render(p: Path): (r: string)
    ensures |r| > 0
  {
    if p.parts == [] then "/" else Text(p.parts) + if p.open then "/" else ""
  }

  predicate Name(c: string) {
    c != "" && c != "." && c != ".." && '/' !in c
  }

  predicate Normal(p: Path) {
    (forall i :: 0 <= i < |p.parts| ==> Name(p.parts[i])) && (p.open ==> p.parts != [])
  }

  lemma WalkSlash(p: Path, s: string)
    requires s != "" && s[0] == '/'
    ensures Walk(p, Split(s)) == Walk(p, Split(s[1..]))
  {
    assert Split(s)[1..] == Split(s[1..]);
  }

  /** A piece free of slashes comes first among the pieces. */
  lemma {:induction false} SplitFirst(s: string, n: nat)
    requires n <= |s| && '/' !in s[..n] && (n == |s| || s[n] == '/')
    ensures Split(s)[0] == s[..n] && Split(s)[1..] == if n == |s| then [] else Split(s[n + 1..])
  {
    if n > 0 {
      assert s[0] in s[..n];
      assert s[1..][..n - 1] == s[..n][1..];
      SplitFirst(s[1..], n - 1);
      if n < |s| {
        assert s[1..][n..] == s[n + 1..];
      }
      assert Split(s)[1..] == Split(s[1..])[1..];
    } else if s != "" {
      assert Split(s)[1..] == Split(s[1..]);
    }
  }

  lemma WalkPiece(p: Path, s: string, n: nat)
    requires n <= |s| && '/' !in s[..n] && (n == |s| || s[n] == '/')
    ensures Walk(p, Split(s)) == Walk(Apply(p, s[..n]), Split(s[n..]))
  {
    SplitFirst(s, n);
    if n < |s| {
      WalkSlash(Apply(p, s[..n]), s[n..]);
      assert s[n..][1..] == s[n + 1..];
    }
  }

  // ------------------------------------------------------------------ what a walk leaves

  lemma ApplyNormal(p: Path, c: string)
    requires Normal(p) && '/' !in c
    ensures Normal(Apply(p, c))
  {}

  lemma {:induction false} PiecesPlain(s: string)
    ensures forall i :: 0 <= i < |Split(s)| ==> '/' !in Split(s)[i]
  {
    if s != "" {
      PiecesPlain(s[1..]);
      forall i | 0 <= i < |Split(s)| ensures '/' !in Split(s)[i] {
        if i > 0 {
          assert Split(s)[i] == if s[0] == '/' then Split(s[1..])[i - 1] else Split(s[1..])[i];
        }
      }
    }
  }

  lemma {:induction false} WalkNormal(p: Path, cs: seq<string>)
    requires Normal(p) && forall i :: 0 <= i < |cs| ==> '/' !in cs[i]
    ensures Normal(Walk(p, cs))
    decreases |cs|
  {
    if cs != [] {
      ApplyNormal(p, cs[0]);
      WalkNormal(Apply(p, cs[0]), cs[1..]);
    }
  }

  predicate Idle(c: string) {
    c == "" || c == "."
  }

  lemma {:induction false} IdleWalk(p: Path, cs: seq<string>)
    requires forall i :: 0 <= i < |cs| ==> Idle(cs[i])
    ensures Walk(p, cs) == p
    decreases |cs|
  {
    if cs != [] {
      IdleWalk(p, cs[1..]);
    }
  }

  /** The walk ends in a slash exactly if something is left and the last component that did anything was "..". */
  lemma {:induction false} WalkOpen(p: Path, cs: seq<string>, k: nat)
    requires Normal(p) && forall i :: 0 <= i < |cs| ==> '/' !in cs[i]
    requires k < |cs| && !Idle(cs[k]) && forall i :: k < i < |cs| ==> Idle(cs[i])
    ensures Walk(p, cs).open <==> Walk(p, cs).parts != [] && cs[k] == ".."
    decreases |cs|
  {
    ApplyNormal(p, cs[0]);
    if k > 0 {
      WalkOpen(Apply(p, cs[0]), cs[1..], k - 1);
    } else {
      IdleWalk(Apply(p, cs[0]), cs[1..]);
    }
  }

  // ------------------------------------------------------------------ reading a rendered path back

  lemma {:induction false} SplitJoin(a: string, c: string)
    requires '/' !in c
    ensures Split(a + "/" + c) == Split(a) + [c]
  {
    if a == "" {
      SplitFirst(c, |c|);
      assert c[..|c|] == c && (a + "/" + c)[1..] == c;
    } else {
      SplitJoin(a[1..], c);
      assert (a + "/" + c)[1..] == a[1..] + "/" + c;
    }
  }

  lemma {:induction false} WalkLast(p: Path, cs: seq<string>, c: string)
    ensures Walk(p, cs + [c]) == Apply(Walk(p, cs), c)
    decreases |cs|
  {
    if cs != [] {
      assert (cs + [c])[1..] == cs[1..] + [c];
      WalkLast(Apply(p, cs[0]), cs[1..], c);
    }
  }

  lemma {:induction false} TextBack(parts: seq<string>)
    requires forall i :: 0 <= i < |parts| ==> Name(parts[i])
    ensures Walk(ROOT, Split(Text(parts))) == Path(parts, false)
    decreases |parts|
  {
    if parts != [] {
      var init, c := parts[..|parts| - 1], parts[|parts| - 1];
      TextBack(init);
      SplitJoin(Text(init), c);
      WalkLast(ROOT, Split(Text(init)), c);
    }
  }

  /** A normal path's text names the same components, so normalizing twice changes at most the last slash. */
  lemma RenderBack(p: Path)
    requires Normal(p)
    ensures Walk(ROOT, Split(Render(p))) == Path(p.parts, false)
  {
    TextBack(p.parts);
    if p.open {
      SplitJoin(Text(p.parts), "");
      WalkLast(ROOT, Split(Text(p.parts)), "");
      assert Text(p.parts) + "/" + "" == Text(p.parts) + "/";
    } else if p.parts != [] {
      assert Text(p.parts) + "" == Text(p.parts);
    }
  }
}
