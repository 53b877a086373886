/** Looking a path up, one directory at a time, and what normalizing it first changes. */
module VfsResolve {
  import opened Paths
  import opened NormalizePath

  const NAME_SIZE: nat := 64       // the buffer for one piece, with its NUL

  datatype Option<T> = None | Some(value: T)

  /** A directory may have "." and ".." entries; device directories have none. */
  datatype Node = File | Dir(dots: bool)

  /** The files of a file system by their component lists. */
  type Tree = map<seq<string>, Node>

  /** Every file other than the root is in a directory, under a name. */
  ghost predicate Proper(tree: Tree) {
    && [] in tree && tree[[]].Dir?
    && forall x :: x in tree && x != [] ==> Name(x[|x| - 1]) && x[..|x| - 1] in tree && tree[x[..|x| - 1]].Dir?
  }

  predicate Dotty(c: string) {
    c == "." || c == ".."
  }

  function Up(x: seq<string>): seq<string> {
    if x == [] then x else x[..|x| - 1]
  }

  /** A file has no lookup; a directory finds an entry of exactly that name. */
  function Lookup(tree: Tree, x: seq<string>, c: string): Option<seq<string>> {
    if x !in tree || tree[x].File? then None
    else if Dotty(c) then (if !tree[x].dots then None else if c == "." then Some(x) else Some(Up(x)))
    else if x + [c] in tree then Some(x + [c])
    else None
  }

  function Resolve(tree: Tree, x: seq<string>, cs: seq<string>): Option<seq<string>>
    decreases |cs|
  {
    if cs == [] then Some(x)
    else match Lookup(tree, x, cs[0])
         case None => None
         case Some(y) => Resolve(tree, y, cs[1..])
  }

  // ------------------------------------------------------------------ the pieces of a path

  /** How far a text goes without a slash. */
  function Span(s: string): (n: nat)
    ensures n <= |s| && (n < |s| ==> s[n] == '/') && forall k :: 0 <= k < n ==> s[k] != '/'
  {
    if s == "" || s[0] == '/' then 0 else 1 + Span(s[1..])
  }

  lemma SpanIs(s: string, n: nat)
    requires n <= |s| && (n < |s| ==> s[n] == '/') && forall k :: 0 <= k < n ==> s[k] != '/'
    ensures Span(s) == n
  {}

  /** The first piece: up to a slash, but no more than the buffer holds. */
  function PieceLen(s: string): (n: nat)
    ensures n <= |s| && (n == 0 && s != "" ==> s[0] == '/') && forall k :: 0 <= k < n ==> s[k] != '/'
  {
    if Span(s) < NAME_SIZE then Span(s) else NAME_SIZE - 1
  }

  /** What is left after the first piece; one slash after it is skipped. */
  function After(s: string): (r: string)
    requires s != ""
    ensures |r| < |s|
  {
    var n := PieceLen(s);
    if n < |s| && s[n] == '/' then s[n + 1..] else s[n..]
  }

  /** The names that are looked up in turn. */
  function Pieces(s: string): seq<string>
    decreases |s|
  {
    if s == "" then [] else [s[..PieceLen(s)]] + Pieces(After(s))
  }

  /** The text of a path without its leading slash. */
  function Inner(s: string): string {
    if s != "" && s[0] == '/' then s[1..] else s
  }

  /** The length of the piece at `i`. */
  method PieceAt(path: string, i: nat) returns (n: nat)
    requires i <= |path|
    ensures n == PieceLen(path[i..])
  {
    n := 0;
    while i + n < |path| && path[i + n] != '/' && n < NAME_SIZE - 1
      invariant i + n <= |path| && n <= Span(path[i..]) && n < NAME_SIZE
    {
      assert path[i..][n] == path[i + n];
      n := n + 1;
    }
    assert i + n < |path| ==> path[i..][n] == path[i + n];
  }

  /** Resolve a path from the root. */
  method ResolvePath(tree: Tree, path: string) returns (r: Option<seq<string>>)
    ensures r == Resolve(tree, [], Pieces(Inner(path)))
  {
    hide Pieces, PieceLen, Lookup;
    var i := if path != "" && path[0] == '/' then 1 else 0;
    var x: seq<string> := [];
    assert path[i..] == Inner(path);
    while i < |path|
      invariant 0 <= i <= |path| && Resolve(tree, x, Pieces(path[i..])) == Resolve(tree, [], Pieces(Inner(path)))
    {
      var n := PieceAt(path, i);
      NextPiece(path, i, n);
      ResolveOne(tree, x, path[i..i + n], Pieces(path[if i + n < |path| && path[i + n] == '/' then i + n + 1
                                                      else i + n..]));
      var next := Lookup(tree, x, path[i..i + n]);
      if next.None? {
        return None;
      }
      x := next.value;
      i := i + n;
      if i < |path| && path[i] == '/' {
        i := i + 1;
      }
    }
    NoPieces(path[i..]);
    r := Some(x);
  }

  lemma ResolveOne(tree: Tree, x: seq<string>, c: string, cs: seq<string>)
    ensures Resolve(tree, x, [c] + cs) ==
              if Lookup(tree, x, c).None? then None else Resolve(tree, Lookup(tree, x, c).value, cs)
  {
    assert ([c] + cs)[1..] == cs;
  }

  lemma NoPieces(s: string)
    requires s == ""
    ensures Pieces(s) == []
  {}

  lemma NextPiece(path: string, i: nat, n: nat)
    requires i < |path| && n == PieceLen(path[i..])
    ensures i + n <= |path| && (n == 0 ==> path[i] == '/')
    ensures Pieces(path[i..]) == [path[i..i + n]] + Pieces(path[if i + n < |path| && path[i + n] == '/' then i + n + 1
                                                                else i + n..])
  {
    Unfold(path[i..]);
    AfterAt(path, i, n);
    hide Pieces, PieceLen, After;
  }

  lemma AfterAt(path: string, i: nat, n: nat)
    requires i < |path| && n == PieceLen(path[i..])
    ensures i + n <= |path| && path[i..][..n] == path[i..i + n]
    ensures After(path[i..]) == path[if i + n < |path| && path[i + n] == '/' then i + n + 1 else i + n..]
  {
    hide PieceLen;
    var s := path[i..];
    assert s[n..] == path[i + n..];
    if n < |s| {
      assert s[n] == path[i + n] && s[n + 1..] == path[i + n + 1..];
    }
  }

  lemma {:induction false} Unfold(s: string)
    requires s != ""
    ensures Pieces(s) == [s[..PieceLen(s)]] + Pieces(After(s))
  {
    hide PieceLen, After;
  }

  // ------------------------------------------------------------------ short components

  /** The components fit the buffer. */
  ghost predicate Short(cs: seq<string>) {
    forall i :: 0 <= i < |cs| ==> |cs[i]| < NAME_SIZE
  }

  /** A slash at the end starts no piece. */
  function WithoutLast(cs: seq<string>): seq<string> {
    if cs != [] && cs[|cs| - 1] == "" then cs[..|cs| - 1] else cs
  }

  /** Components that fit are looked up as they are, empty ones included. */
  lemma {:induction false} PiecesAre(s: string)
    requires Short(Split(s))
    ensures Pieces(s) == WithoutLast(Split(s))
    decreases |s|
  {
    hide Split, Span, Pieces;
    var n := Span(s);
    SplitFirst(s, n);
    var c, rest := Split(s)[0], Split(s)[1..];
    assert Split(s) == [c] + rest;
    ShortTail(c, rest);
    if s == "" {
      NoPieces(s);
    } else {
      FirstPiece(s);
      if n < |s| {
        PiecesAre(s[n + 1..]);
        LastOf(c, rest);
      }
    }
  }

  lemma {:induction false} FirstPiece(s: string)
    requires s != "" && Span(s) < NAME_SIZE
    ensures Pieces(s) == [s[..Span(s)]] + if Span(s) < |s| then Pieces(s[Span(s) + 1..]) else []
  {
    Unfold(s);
    hide Span;
    var n := Span(s);
    assert PieceLen(s) == n;
    if n == |s| {
      assert s[n..] == "" && Pieces("") == [];
    }
  }

  lemma ShortTail(c: string, cs: seq<string>)
    requires Short([c] + cs)
    ensures Short(cs) && |c| < NAME_SIZE
  {
    assert ([c] + cs)[0] == c;
    forall i | 0 <= i < |cs| ensures |cs[i]| < NAME_SIZE {
      assert ([c] + cs)[i + 1] == cs[i];
    }
  }

  lemma LastOf(c: string, cs: seq<string>)
    requires cs != []
    ensures WithoutLast([c] + cs) == [c] + WithoutLast(cs)
  {}

  lemma {:induction false} WalkShort(p: Path, cs: seq<string>)
    requires Short(p.parts) && Short(cs)
    ensures Short(Walk(p, cs).parts)
    decreases |cs|
  {
    if cs != [] {
      WalkShort(Apply(p, cs[0]), cs[1..]);
    }
  }

  lemma {:induction false} SplitText(parts: seq<string>)
    requires forall i :: 0 <= i < |parts| ==> Name(parts[i])
    ensures Split(Text(parts)) == [""] + parts
    decreases |parts|
  {
    if parts != [] {
      var init := parts[..|parts| - 1];
      SplitText(init);
      SplitJoin(Text(init), parts[|parts| - 1]);
      assert init + [parts[|parts| - 1]] == parts;
    }
  }

  /** The pieces of a normal path are its components. */
  lemma RenderPieces(p: Path)
    requires Normal(p) && Short(p.parts)
    ensures Pieces(Inner(Render(p))) == p.parts
  {
    if p.parts != [] {
      var r, cs := Render(p), if p.open then p.parts + [""] else p.parts;
      SplitText(p.parts);
      StartsWithSlash(p);
      if p.open {
        SplitJoin(Text(p.parts), "");
        assert Text(p.parts) + "/" + "" == r;
        assert [""] + p.parts + [""] == [""] + cs;
      } else {
        assert r == Text(p.parts);
      }
      assert Split(r) == [""] + cs;
      hide Render, Text;
      SplitRest(r, cs);
      PiecesAre(r[1..]);
      assert Name(p.parts[|p.parts| - 1]);
    }
  }

  lemma SplitRest(r: string, cs: seq<string>)
    requires r != "" && r[0] == '/' && Split(r) == [""] + cs
    ensures Split(r[1..]) == cs
  {
    assert ([""] + Split(r[1..]))[1..] == ([""] + cs)[1..];
  }

  // ------------------------------------------------------------------ when a walk through the tree succeeds

  /** A lookup of `c` in `x` gets past the checks of the directory itself. */
  predicate Enters(tree: Tree, x: seq<string>, c: string) {
    x in tree && tree[x].Dir? && (Dotty(c) ==> tree[x].dots)
  }

  /** The file reached after `k` pieces. */
  function At(p: Path, cs: seq<string>, k: nat): seq<string>
    requires k <= |cs|
  {
    Walk(p, cs[..k]).parts
  }

  ghost predicate Passable(tree: Tree, p: Path, cs: seq<string>) {
    (forall k :: 0 <= k < |cs| ==> cs[k] != "" && Enters(tree, At(p, cs, k), cs[k])) && Walk(p, cs).parts in tree
  }

  lemma PassableStep(tree: Tree, p: Path, cs: seq<string>)
    requires cs != []
    ensures Passable(tree, p, cs) <==> cs[0] != "" && Enters(tree, p.parts, cs[0])
                                       && Passable(tree, Apply(p, cs[0]), cs[1..])
  {
    var q := Apply(p, cs[0]);
    assert At(p, cs, 0) == p.parts;
    forall k | 0 < k <= |cs| ensures At(p, cs, k) == At(q, cs[1..], k - 1) {
      assert cs[..k][1..] == cs[1..][..k - 1];
    }
    if Passable(tree, p, cs) {
      forall k | 0 <= k < |cs| - 1 ensures cs[1..][k] != "" && Enters(tree, At(q, cs[1..], k), cs[1..][k]) {
        assert cs[k + 1] != "" && Enters(tree, At(p, cs, k + 1), cs[k + 1]);
      }
    }
    if cs[0] != "" && Enters(tree, p.parts, cs[0]) && Passable(tree, q, cs[1..]) {
      forall k | 0 <= k < |cs| ensures cs[k] != "" && Enters(tree, At(p, cs, k), cs[k]) {
        if k > 0 {
          assert cs[1..][k - 1] != "" && Enters(tree, At(q, cs[1..], k - 1), cs[1..][k - 1]);
        }
      }
    }
  }

  /** A path resolves exactly if it has no empty piece and every directory on its way lets it through. */
  lemma {:induction false} ResolvesIff(tree: Tree, p: Path, cs: seq<string>)
    requires Proper(tree) && p.parts in tree && forall i :: 0 <= i < |cs| ==> '/' !in cs[i]
    ensures Resolve(tree, p.parts, cs) == if Passable(tree, p, cs) then Some(Walk(p, cs).parts) else None
    decreases |cs|
  {
    if cs != [] {
      PassableStep(tree, p, cs);
      var q := Apply(p, cs[0]);
      LookupIs(tree, p, cs[0]);
      if Lookup(tree, p.parts, cs[0]).Some? {
        ResolvesIff(tree, q, cs[1..]);
      } else if Passable(tree, q, cs[1..]) && cs[0] != "" && Enters(tree, p.parts, cs[0]) {
        StartsInTree(tree, q, cs[1..]);
      }
    }
  }

  lemma LookupIs(tree: Tree, p: Path, c: string)
    requires Proper(tree) && p.parts in tree && '/' !in c
    ensures Lookup(tree, p.parts, c) ==
              if c != "" && Enters(tree, p.parts, c) && Apply(p, c).parts in tree then Some(Apply(p, c).parts) else None
  {
    var x := p.parts + [c];
    assert x[|x| - 1] == c;
  }

  lemma StartsInTree(tree: Tree, p: Path, cs: seq<string>)
    requires Passable(tree, p, cs)
    ensures p.parts in tree
  {
    if cs != [] {
      assert Enters(tree, At(p, cs, 0), cs[0]);
    }
  }

  lemma {:induction false} Parents(tree: Tree, x: seq<string>, n: nat)
    requires Proper(tree) && x in tree && n < |x|
    ensures x[..n] in tree && tree[x[..n]].Dir?
    decreases |x|
  {
    if n < |x| - 1 {
      Parents(tree, x[..|x| - 1], n);
      assert x[..|x| - 1][..n] == x[..n];
    }
  }

  lemma {:induction false} WalkNames(x: seq<string>, cs: seq<string>)
    requires forall i :: 0 <= i < |cs| ==> Name(cs[i])
    ensures Walk(Path(x, false), cs).parts == x + cs
    decreases |cs|
  {
    if cs != [] {
      WalkNames(x + [cs[0]], cs[1..]);
      assert x + [cs[0]] + cs[1..] == x + cs;
    } else {
      assert x + cs == x;
    }
  }

  /** A list of names resolves exactly if it is a file. */
  lemma NamesResolve(tree: Tree, parts: seq<string>)
    requires Proper(tree) && forall i :: 0 <= i < |parts| ==> Name(parts[i])
    ensures Resolve(tree, [], parts) == if parts in tree then Some(parts) else None
  {
    hide Walk, Resolve, Proper;
    assert [] in tree by { RootThere(tree); }
    WalkNames([], parts);
    assert [] + parts == parts;
    assert forall i :: 0 <= i < |parts| ==> '/' !in parts[i];
    ResolvesIff(tree, ROOT, parts);
    if parts in tree {
      forall k | 0 <= k < |parts| ensures parts[k] != "" && Enters(tree, At(ROOT, parts, k), parts[k]) {
        NameEnters(tree, parts, k);
      }
    }
  }

  lemma NameEnters(tree: Tree, parts: seq<string>, k: nat)
    requires Proper(tree) && parts in tree && k < |parts| && forall i :: 0 <= i < |parts| ==> Name(parts[i])
    ensures parts[k] != "" && Enters(tree, At(ROOT, parts, k), parts[k])
  {
    hide Walk, Proper;
    assert Name(parts[k]);
    WalkNames([], parts[..k]);
    assert [] + parts[..k] == parts[..k];
    Parents(tree, parts, k);
  }

  lemma RootThere(tree: Tree)
    requires Proper(tree)
    ensures [] in tree
  {}

  // ------------------------------------------------------------------ a path and its normal form

  /** What the text of a path does besides leading to `target`: no piece is empty, and each directory it passes that is
      not on the way to `target`, or where it looks up "." or "..", lets it through. */
  ghost predicate SideTrips(tree: Tree, cs: seq<string>, target: seq<string>) {
    forall k :: 0 <= k < |cs| ==>
      cs[k] != "" && ((At(ROOT, cs, k) < target && !Dotty(cs[k])) || Enters(tree, At(ROOT, cs, k), cs[k]))
  }

  /** The target of an absolute path, by its text alone. */
  function Target(s: string): seq<string> {
    Walk(ROOT, Split(s)).parts
  }

  lemma WalkPieces(s: string)
    requires s != "" && s[0] == '/' && Short(Split(s))
    ensures Walk(ROOT, Pieces(s[1..])) == Walk(ROOT, Split(s))
    ensures forall i :: 0 <= i < |Pieces(s[1..])| ==> '/' !in Pieces(s[1..])[i]
  {
    WalkSlash(ROOT, s);
    var cs := Split(s[1..]);
    assert Split(s) == [""] + cs;
    ShortTail("", cs);
    hide Pieces, Split, Walk, WithoutLast;
    PiecesAre(s[1..]);
    PiecesPlainly(s[1..]);
    WalkWithout(ROOT, cs);
  }

  lemma WalkWithout(p: Path, cs: seq<string>)
    ensures Walk(p, WithoutLast(cs)) == Walk(p, cs)
  {
    hide Walk;
    if cs != [] && cs[|cs| - 1] == "" {
      WalkLast(p, cs[..|cs| - 1], "");
      assert cs[..|cs| - 1] + [""] == cs;
    }
  }

  /** The normal form of a path within both buffers resolves exactly if the target exists. */
  lemma NormalResolves(tree: Tree, s: string)
    requires Proper(tree) && s != "" && s[0] == '/' && |s| < PATH_SIZE && Short(Split(s))
    ensures Resolve(tree, [], Pieces(Inner(NormalForm(s)))) == if Target(s) in tree then Some(Target(s)) else None
  {
    PiecesPlain(s);
    WalkNormal(ROOT, Split(s));
    WalkShort(ROOT, Split(s));
    RenderPieces(Walk(ROOT, Split(s)));
    NamesResolve(tree, Target(s));
  }

  /** Directories on the way to a file that exists need no check. */
  lemma OnTheWay(tree: Tree, cs: seq<string>, target: seq<string>)
    requires Proper(tree) && target in tree && Walk(ROOT, cs).parts == target
    ensures SideTrips(tree, cs, target) <==> Passable(tree, ROOT, cs)
  {
    hide Walk, At;
    forall k | 0 <= k < |cs| && At(ROOT, cs, k) < target && !Dotty(cs[k]) ensures Enters(tree, At(ROOT, cs, k), cs[k]) {
      var x := At(ROOT, cs, k);
      Parents(tree, target, |x|);
      assert target[..|x|] == x;
    }
  }

  /** In every tree a path and its normal form resolve alike exactly if the target does not exist or the path's side
      trips are all possible. */
  lemma SameFileIff(tree: Tree, s: string)
    requires Proper(tree) && s != "" && s[0] == '/' && |s| < PATH_SIZE && Short(Split(s))
    ensures Resolve(tree, [], Pieces(Inner(s))) == Resolve(tree, [], Pieces(Inner(NormalForm(s)))) <==>
              Target(s) !in tree || SideTrips(tree, Pieces(Inner(s)), Target(s))
  {
    hide Pieces, Split, Resolve, Walk, NormalForm;
    var cs := Pieces(s[1..]);
    NormalResolves(tree, s);
    WalkPieces(s);
    ResolvesIff(tree, ROOT, cs);
    if Target(s) in tree {
      OnTheWay(tree, cs, Target(s));
    }
  }

  /** So a directory that chdir has resolved is the one its recorded, normalized path names. */
  lemma ChdirNames(tree: Tree, s: string)
    requires Proper(tree) && s != "" && s[0] == '/' && |s| < PATH_SIZE && Short(Split(s))
    requires Resolve(tree, [], Pieces(Inner(s))).Some?
    ensures Resolve(tree, [], Pieces(Inner(NormalForm(s)))) == Resolve(tree, [], Pieces(Inner(s)))
  {
    NormalResolves(tree, s);
    WalkPieces(s);
    ResolvesIff(tree, ROOT, Pieces(s[1..]));
  }

  // ------------------------------------------------------------------ all paths, of any length

  /** In every tree in which `rs` resolves, `ns` resolves to the same file. */
  ghost predicate AlwaysAlike(rs: seq<string>, ns: seq<string>) {
    forall tree: Tree :: Proper(tree) && Resolve(tree, [], rs).Some? ==> Resolve(tree, [], ns) == Resolve(tree, [], rs)
  }

  /** Following `rs` shows that `x` is a directory. */
  ghost predicate Seen(rs: seq<string>, x: seq<string>) {
    x == [] || exists j :: 0 <= j < |rs| && x <= At(ROOT, rs, j)
  }

  /** Following `rs` shows that directory `x` has "." and "..". */
  ghost predicate SeenDots(rs: seq<string>, x: seq<string>) {
    exists j :: 0 <= j < |rs| && At(ROOT, rs, j) == x && Dotty(rs[j])
  }

  /** `ns` ends where `rs` does and goes only through directories that `rs` goes through. */
  ghost predicate Covered(rs: seq<string>, ns: seq<string>) {
    && Walk(ROOT, ns).parts == Walk(ROOT, rs).parts
    && forall k :: 0 <= k < |ns| ==>
         ns[k] != "" && if Dotty(ns[k]) then SeenDots(rs, At(ROOT, ns, k)) else Seen(rs, At(ROOT, ns, k))
  }

  ghost predicate Plain(cs: seq<string>) {
    forall i :: 0 <= i < |cs| ==> '/' !in cs[i]
  }

  lemma CoveredAlike(tree: Tree, rs: seq<string>, ns: seq<string>)
    requires Proper(tree) && Passable(tree, ROOT, rs) && Covered(rs, ns)
    ensures Passable(tree, ROOT, ns)
  {
    forall k | 0 <= k < |ns| ensures ns[k] != "" && Enters(tree, At(ROOT, ns, k), ns[k]) {
      var x := At(ROOT, ns, k);
      if Dotty(ns[k]) {
        var j :| 0 <= j < |rs| && At(ROOT, rs, j) == x && Dotty(rs[j]);
        assert Enters(tree, At(ROOT, rs, j), rs[j]);
      } else if x != [] {
        var j :| 0 <= j < |rs| && x <= At(ROOT, rs, j);
        assert Enters(tree, At(ROOT, rs, j), rs[j]);
        if x != At(ROOT, rs, j) {
          Parents(tree, At(ROOT, rs, j), |x|);
          assert At(ROOT, rs, j)[..|x|] == x;
        }
      }
    }
  }

  /** The files that following `rs` passes, with their parents. */
  ghost function Visited(rs: seq<string>): set<seq<string>> {
    set j, n | 0 <= j <= |rs| && 0 <= n <= |At(ROOT, rs, j)| :: At(ROOT, rs, j)[..n]
  }

  /** The smallest tree in which `rs` resolves. */
  ghost function Smallest(rs: seq<string>): Tree {
    map x | x in Visited(rs) :: if Seen(rs, x) then Dir(SeenDots(rs, x)) else File
  }

  lemma IsVisited(rs: seq<string>, j: nat, n: nat)
    requires j <= |rs| && n <= |At(ROOT, rs, j)|
    ensures At(ROOT, rs, j)[..n] in Visited(rs)
  {}

  lemma ParentSeen(rs: seq<string>, j: nat, n: nat)
    requires j <= |rs| && 0 < n <= |At(ROOT, rs, j)|
    ensures Seen(rs, At(ROOT, rs, j)[..n - 1])
  {
    var x := At(ROOT, rs, j)[..n - 1];
    if j == |rs| && rs != [] {
      var init := rs[..j - 1];
      assert rs[..j] == init + [rs[j - 1]];
      WalkLast(ROOT, init, rs[j - 1]);
      assert x <= At(ROOT, rs, j - 1);
    }
  }

  lemma VisitedParent(rs: seq<string>, x: seq<string>)
    requires Plain(rs) && x in Visited(rs) && x != []
    ensures Name(x[|x| - 1]) && x[..|x| - 1] in Visited(rs) && Seen(rs, x[..|x| - 1])
  {
    hide Seen, Walk, Name;
    var j, n :| 0 <= j <= |rs| && 0 <= n <= |At(ROOT, rs, j)| && x == At(ROOT, rs, j)[..n];
    var y := At(ROOT, rs, j);
    assert x[..|x| - 1] == y[..n - 1] && x[|x| - 1] == y[n - 1];
    WalkNormal(ROOT, rs[..j]);
    IsVisited(rs, j, n - 1);
    ParentSeen(rs, j, n);
  }

  lemma SmallestProper(rs: seq<string>)
    requires Plain(rs)
    ensures Proper(Smallest(rs))
  {
    hide Seen, SeenDots, Visited, Name;
    SeenRoot(rs);
    IsVisited(rs, 0, 0);
    assert At(ROOT, rs, 0)[..0] == [];
    var tree := Smallest(rs);
    forall x | x in tree && x != [] ensures Name(x[|x| - 1]) && x[..|x| - 1] in tree && tree[x[..|x| - 1]].Dir? {
      VisitedParent(rs, x);
    }
  }

  lemma SeenRoot(rs: seq<string>)
    ensures Seen(rs, [])
  {}

  lemma SmallestPassable(rs: seq<string>)
    requires Plain(rs) && "" !in rs
    ensures Passable(Smallest(rs), ROOT, rs)
  {
    forall k | 0 <= k < |rs| ensures rs[k] != "" && Enters(Smallest(rs), At(ROOT, rs, k), rs[k]) {
      IsVisited(rs, k, |At(ROOT, rs, k)|);
      assert At(ROOT, rs, k)[..|At(ROOT, rs, k)|] == At(ROOT, rs, k);
    }
    IsVisited(rs, |rs|, |At(ROOT, rs, |rs|)|);
    assert At(ROOT, rs, |rs|)[..|At(ROOT, rs, |rs|)|] == At(ROOT, rs, |rs|) && rs[..|rs|] == rs;
  }

  lemma AlikeCovered(rs: seq<string>, ns: seq<string>)
    requires Plain(rs) && Plain(ns) && "" !in rs && AlwaysAlike(rs, ns)
    ensures Covered(rs, ns)
  {
    var tree := Smallest(rs);
    hide Smallest;
    SmallestProper(rs);
    SmallestPassable(rs);
    ResolvesIff(tree, ROOT, rs);
    ResolvesIff(tree, ROOT, ns);
    assert Resolve(tree, [], ns) == Resolve(tree, [], rs);
    forall k | 0 <= k < |ns|
      ensures ns[k] != "" && if Dotty(ns[k]) then SeenDots(rs, At(ROOT, ns, k)) else Seen(rs, At(ROOT, ns, k))
    {
      assert Enters(tree, At(ROOT, ns, k), ns[k]);
      SmallestSees(rs, At(ROOT, ns, k));
    }
  }

  lemma SmallestSees(rs: seq<string>, x: seq<string>)
    requires x in Smallest(rs) && Smallest(rs)[x].Dir?
    ensures Seen(rs, x) && (Smallest(rs)[x].dots ==> SeenDots(rs, x))
  {}

  lemma EmptyFails(tree: Tree, rs: seq<string>)
    requires Proper(tree) && Plain(rs) && "" in rs
    ensures Resolve(tree, [], rs) == None
  {
    var k :| 0 <= k < |rs| && rs[k] == "";
    ResolvesIff(tree, ROOT, rs);
    assert rs[k] == "";
  }

  /** One list of pieces resolves as another does in every tree exactly if that one has an empty piece or covers it. */
  lemma AlikeIff(rs: seq<string>, ns: seq<string>)
    requires Plain(rs) && Plain(ns)
    ensures AlwaysAlike(rs, ns) <==> "" in rs || Covered(rs, ns)
  {
    if "" !in rs && AlwaysAlike(rs, ns) {
      AlikeCovered(rs, ns);
    }
    if "" in rs || Covered(rs, ns) {
      forall tree: Tree | Proper(tree) && Resolve(tree, [], rs).Some?
        ensures Resolve(tree, [], ns) == Resolve(tree, [], rs)
      {
        ResolvesIff(tree, ROOT, rs);
        ResolvesIff(tree, ROOT, ns);
        if "" in rs {
          EmptyFails(tree, rs);
        } else {
          CoveredAlike(tree, rs, ns);
        }
      }
    }
  }

  lemma {:induction false} PiecesPlainly(s: string)
    ensures Plain(Pieces(s))
    decreases |s|
  {
    hide Span;
    if s != "" {
      Unfold(s);
      PiecesPlainly(After(s));
      assert '/' !in s[..PieceLen(s)];
      PlainCons(s[..PieceLen(s)], Pieces(After(s)));
    }
  }

  lemma PlainCons(c: string, cs: seq<string>)
    requires '/' !in c && Plain(cs)
    ensures Plain([c] + cs)
  {}

  /** Whatever directory a path resolves to, its normal form names the same one, exactly if the path has an empty piece,
      and so resolves nowhere, or goes through every directory that its normal form goes through and ends where that
      does. */
  lemma NormalFormIff(s: string)
    ensures var rs, ns := Pieces(Inner(s)), Pieces(Inner(NormalForm(s)));
            AlwaysAlike(rs, ns) <==> "" in rs || Covered(rs, ns)
  {
    PiecesPlainly(Inner(s));
    PiecesPlainly(Inner(NormalForm(s)));
    AlikeIff(Pieces(Inner(s)), Pieces(Inner(NormalForm(s))));
  }

  /** Within both buffers that is always so. */
  lemma ShortAlike(s: string)
    requires s != "" && s[0] == '/' && |s| < PATH_SIZE && Short(Split(s))
    ensures AlwaysAlike(Pieces(Inner(s)), Pieces(Inner(NormalForm(s))))
  {
    forall tree: Tree | Proper(tree) && Resolve(tree, [], Pieces(Inner(s))).Some?
      ensures Resolve(tree, [], Pieces(Inner(NormalForm(s)))) == Resolve(tree, [], Pieces(Inner(s)))
    {
      ChdirNames(tree, s);
    }
  }

  /** The ".." after a file: the path resolves nowhere, its normal form to the root. */
  lemma DotDotOfFile(tree: Tree, f: string)
    requires Proper(tree) && Name(f) && |f| < NAME_SIZE && [f] in tree && tree[[f]].File?
    ensures Resolve(tree, [], Pieces(Inner("/" + f + "/.."))) == None
    ensures Resolve(tree, [], Pieces(Inner(NormalForm("/" + f + "/..")))) == Some([])
  {
    hide Pieces, Resolve, Split, Walk, NormalForm, Proper;
    var s := "/" + f + "/..";
    assert Inner(s) == f + "/..";
    SplitThree(f);
    WalkThree(f);
    assert [] in tree by { RootThere(tree); }
    NormalResolves(tree, s);
    PiecesAre(f + "/..");
    assert [f] + [".."] == [f, ".."] && [".."] + [] == [".."] && [] + [f] == [f];
    ResolveOne(tree, [], f, [".."]);
    ResolveOne(tree, [f], "..", []);
  }

  lemma SplitThree(a: string)
    requires '/' !in a
    ensures Split("/" + a + "/..") == ["", a, ".."] && Split(a + "/..") == [a, ".."]
  {
    var t := a + "/..";
    assert t[..|a|] == a && t[|a| + 1..] == "..";
    SplitFirst(t, |a|);
    SplitFirst("..", 2);
    assert ".."[..2] == "..";
    assert Split(t) == [Split(t)[0]] + Split(t)[1..] && Split("..") == [".."];
    assert ("/" + a + "/..")[1..] == t;
  }

  lemma WalkOne(p: Path, c: string, cs: seq<string>)
    ensures Walk(p, [c] + cs) == Walk(Apply(p, c), cs)
  {
    assert ([c] + cs)[1..] == cs;
  }

  /** Three pieces in turn. */
  lemma WalkEach(a: string, b: string, c: string)
    ensures Walk(ROOT, [a, b, c]) == Apply(Apply(Apply(ROOT, a), b), c)
  {
    hide Apply, Walk;
    assert [a, b, c] == [a] + [b, c] && [b, c] == [b] + [c] && [c] == [c] + [];
    WalkOne(ROOT, a, [b, c]);
    WalkOne(Apply(ROOT, a), b, [c]);
    WalkOne(Apply(Apply(ROOT, a), b), c, []);
    IdleWalk(Apply(Apply(Apply(ROOT, a), b), c), []);
  }

  lemma WalkThree(a: string)
    requires Name(a)
    ensures Walk(ROOT, ["", a, ".."]) == ROOT
  {
    WalkEach("", a, "..");
  }

  lemma NormalThree(a: string)
    requires Name(a) && |a| < 200
    ensures NormalForm("/" + a + "/..") == "/" && Inner(NormalForm("/" + a + "/..")) == ""
  {
    hide Split, Walk;
    SplitThree(a);
    WalkThree(a);
  }

  lemma EndsElsewhere(rs: seq<string>, ns: seq<string>)
    requires Plain(rs) && Plain(ns) && "" !in rs && Walk(ROOT, rs).parts != Walk(ROOT, ns).parts
    ensures !AlwaysAlike(rs, ns)
  {
    hide AlwaysAlike, Walk;
    AlikeIff(rs, ns);
  }

  /** A component too long for the buffer is looked up as two, and ".." then leaves only the second. */
  lemma LongComponent(a: string)
    requires |a| == NAME_SIZE && forall i :: 0 <= i < |a| ==> a[i] == 'x'
    ensures !AlwaysAlike(Pieces(Inner("/" + a + "/..")), Pieces(Inner(NormalForm("/" + a + "/.."))))
  {
    hide Pieces, Walk, Apply, AlwaysAlike, NormalForm, Name;
    var s, b, c := "/" + a + "/..", a[..63], a[63..];
    assert Inner(s) == a + "/..";
    XsName(a);
    XsName(b);
    XsName(c);
    NormalThree(a);
    NoPieces("");
    LongPieces(a);
    WalkLong(b, c);
    PiecesPlainly(Inner(s));
    EndsElsewhere(Pieces(Inner(s)), []);
  }

  lemma XsName(a: string)
    requires a != "" && forall i :: 0 <= i < |a| ==> a[i] == 'x'
    ensures Name(a)
  {
    assert a[0] == 'x';
  }

  lemma WalkLong(b: string, c: string)
    requires Name(b) && Name(c)
    ensures Walk(ROOT, [b, c, ".."]).parts == [b] && Walk(ROOT, []).parts == [] && "" !in [b, c, ".."]
  {
    WalkEach(b, c, "..");
    IdleWalk(ROOT, []);
  }

  lemma LongPieces(a: string)
    requires |a| == NAME_SIZE && forall i :: 0 <= i < |a| ==> a[i] == 'x'
    ensures Pieces(a + "/..") == [a[..63], a[63..], ".."]
  {
    hide Span, Pieces;
    var t, u := a + "/..", a[63..] + "/..";
    SpanIs(t, 64);
    assert t[0..] == t && t[0..63] == a[..63] && t[63..] == u && t[63] == 'x';
    NextPiece(t, 0, 63);
    SpanIs(u, 1);
    assert u[0..] == u && u[0..1] == a[63..] && u[1] == '/' && u[2..] == "..";
    NextPiece(u, 0, 1);
    SpanIs("..", 2);
    assert ".."[0..2] == ".." && ".."[0..] == ".." && ".."[2..] == "";
    NextPiece("..", 0, 2);
    NoPieces("");
  }
}
