/** Rewriting a path in place. */
module NormalizePath {
  import opened Paths

  const PATH_SIZE: nat := 256

  /** The buffer holds the text `s`, ended by a NUL. */
  ghost predicate Holds(buf: seq<char>, s: string) {
    |s| < |buf| && buf[..|s|] == s && buf[|s|] == '\0' && '\0' !in s
  }

  /** Only the first 255 characters of a path are looked at. */
  function Cut(s: string): string {
    if |s| < PATH_SIZE then s else s[..PATH_SIZE - 1]
  }

  /** What a path becomes: unchanged unless absolute. */
  function NormalForm(s: string): string {
    if s == "" || s[0] != '/' then s else Render(Walk(ROOT, Split(Cut(s))))
  }

  // ------------------------------------------------------------------ rendered text

  /** Adding a name puts in a slash unless there is one at the end. */
  lemma RenderPush(p: Path, c: string)
    requires Normal(p) && Name(c)
    ensures Render(Apply(p, c)) == Render(p) + (if Render(p)[|Render(p)| - 1] == '/' then "" else "/") + c
  {
    assert (p.parts + [c])[..|p.parts|] == p.parts;
    assert Render(Apply(p, c)) == Text(p.parts) + "/" + c;
    if p.parts != [] && !p.open {
      var last := p.parts[|p.parts| - 1];
      assert Render(p)[|Render(p)| - 1] == last[|last| - 1] && last[|last| - 1] in last;
    }
  }

  /** Dropping the last name leaves the text up to the slash before it. */
  lemma RenderPop(p: Path)
    requires Normal(p) && p.parts != []
    ensures Render(p) == Render(Apply(p, "..")) + p.parts[|p.parts| - 1] + if p.open then "/" else ""
    ensures Render(Apply(p, ".."))[|Render(Apply(p, ".."))| - 1] == '/'
  {
    var init := p.parts[..|p.parts| - 1];
    if init != [] {
      assert Render(Apply(p, "..")) == Text(init) + "/";
    } else {
      assert Render(Apply(p, "..")) == "/";
    }
  }

  lemma ShortRoot(p: Path)
    requires Normal(p)
    ensures |Render(p)| == 1 <==> p.parts == []
  {
    if p.parts != [] {
      assert |p.parts[|p.parts| - 1]| > 0;
    }
  }

  // ------------------------------------------------------------------ the loops

  /** The first index from `i` on that is no slash. */
  method SkipSlashes(out: array<char>, i: nat, ghost n: nat) returns (j: nat)
    requires i <= n < out.Length && out[n] == '\0'
    ensures i <= j <= n && out[j] != '/' && forall k :: i <= k < j ==> out[k] == '/'
  {
    j := i;
    while out[j] == '/'
      invariant i <= j <= n && forall k :: i <= k < j ==> out[k] == '/'
      decreases n - j
    {
      j := j + 1;
    }
  }

  /** The end of the component at `i`. */
  method SkipName(out: array<char>, i: nat, ghost n: nat) returns (j: nat)
    requires i <= n < out.Length && out[n] == '\0'
    ensures i <= j <= n && (out[j] == '\0' || out[j] == '/')
    ensures forall k :: i <= k < j ==> out[k] != '\0' && out[k] != '/'
  {
    j := i;
    while out[j] != '\0' && out[j] != '/'
      invariant i <= j <= n && forall k :: i <= k < j ==> out[k] != '\0' && out[k] != '/'
      decreases n - j
    {
      j := j + 1;
    }
  }

  /** Drop the last component of the text before `o`. */
  method Pop(out: array<char>, o: nat, ghost p: Path) returns (o': nat)
    requires o <= out.Length && Normal(p) && p.parts != [] && out[..o] == Render(p)
    ensures 0 < o' <= o && out[..o'] == Render(Apply(p, ".."))
  {
    ghost var left := Render(Apply(p, ".."));
    ghost var n := |p.parts[|p.parts| - 1]|;
    LastName(p);
    hide Render, Apply, Normal;
    assert forall k :: 0 <= k < o ==> out[k] == out[..o][k];
    o' := o - 1;
    while o' > 0 && out[o' - 1] != '/'
      invariant |left| <= o' <= |left| + n && o' < o
    {
      o' := o' - 1;
    }
    assert out[..o'] == out[..o][..|left|];
  }

  /** The text of a path ends in the slash before its last name, the name, and perhaps a slash. */
  lemma LastName(p: Path)
    requires Normal(p) && p.parts != []
    ensures var r, left, n := Render(p), Render(Apply(p, "..")), |p.parts[|p.parts| - 1]|;
            && 0 < |left| && 0 < n && |left| + n <= |r| <= |left| + n + 1 && left == r[..|left|] && r[|left| - 1] == '/'
            && forall k :: |left| <= k < |left| + n ==> r[k] != '/'
  {
    var left, last := Render(Apply(p, "..")), p.parts[|p.parts| - 1];
    RenderPop(p);
    assert Name(last);
    hide Render, Apply, Normal, Name;
    forall k | |left| <= k < |left| + |last| ensures Render(p)[k] != '/' {
      assert Render(p)[k] == last[k - |left|] && last[k - |left|] in last;
    }
  }

  /** End the text before `o` in a slash. */
  method AddSlash(out: array<char>, o: nat) returns (o': nat)
    requires 0 < o <= out.Length && (o < out.Length || out[o - 1] == '/')
    modifies out
    ensures o <= o' <= o + 1 && o' <= out.Length && (o' == o <==> old(out[o - 1]) == '/')
    ensures forall k :: o' <= k < out.Length ==> out[k] == old(out[k])
    ensures out[..o'] == old(out[..o]) + if old(out[..o])[o - 1] == '/' then "" else "/"
  {
    o' := o;
    if out[o - 1] != '/' {
      out[o] := '/';
      o' := o + 1;
    }
  }

  /** Put the component at `start` after the text before `o`; it never lands on a character still to be read. */
  method Push(out: array<char>, o: nat, start: nat, len: nat, ghost p: Path) returns (o': nat)
    requires 0 < o <= start && start + len <= out.Length && Normal(p) && out[..o] == Render(p)
    requires Name(out[start..start + len]) && (o < start || out[o - 1] == '/')
    modifies out
    ensures o <= o' <= start + len && out[..o'] == Render(Apply(p, old(out[start..start + len])))
    ensures forall k :: start + len <= k < out.Length ==> out[k] == old(out[k])
  {
    hide Render, Apply, Normal, Name;
    ghost var c := out[start..start + len];
    RenderPush(p, c);
    o' := AddSlash(out, o);
    ghost var before := out[..o'];
    assert out[start..start + len] == c;
    CopyDown(out, o', start, len);
    o' := o' + len;
    assert out[..o'] == before + c;
  }

  /** Copy `len` characters to a place no later than where they stand, lowest first. */
  method CopyDown(out: array<char>, to: nat, from: nat, len: nat)
    requires to <= from && from + len <= out.Length
    modifies out
    ensures out[to..to + len] == old(out[from..from + len])
    ensures forall i :: 0 <= i < to || to + len <= i < out.Length ==> out[i] == old(out[i])
  {
    var k := 0;
    while k < len
      invariant 0 <= k <= len
      invariant out[to..to + k] == old(out[from..from + k])
      invariant forall i :: 0 <= i < to || to + k <= i < out.Length ==> out[i] == old(out[i])
    {
      out[to + k] := out[from + k];
      k := k + 1;
    }
  }

  // ------------------------------------------------------------------ the whole rewrite

  /** What the rewrite keeps while it stands at `i`: the text before `o` renders the components read so far and
      the text from `i` on has not been touched. */
  ghost predicate Rewriting(buf: seq<char>, s: string, p: Path, o: nat, i: nat) {
    && |s| < |buf| && 0 < o <= i <= |s| && (i == 1 || i == |s| || s[i] == '/')
    && buf[i..|s|] == s[i..] && buf[|s|] == '\0' && '\0' !in s
    && buf[..o] == Render(p) && Normal(p) && '\0' !in buf[..o]
    && Walk(p, Split(s[i..])) == Walk(ROOT, Split(s))
  }

  lemma SkipPieces(p: Path, s: string, i: nat, j: nat)
    requires i <= j <= |s| && forall k :: i <= k < j ==> s[k] == '/'
    ensures Walk(p, Split(s[i..])) == Walk(p, Split(s[j..]))
    decreases j - i
  {
    if i < j {
      WalkSlash(p, s[i..]);
      assert s[i..][1..] == s[i + 1..];
      SkipPieces(p, s, i + 1, j);
    }
  }

  lemma TakePiece(p: Path, s: string, i: nat, j: nat)
    requires i <= j <= |s| && '/' !in s[i..j] && (j == |s| || s[j] == '/')
    ensures Walk(p, Split(s[i..])) == Walk(Apply(p, s[i..j]), Split(s[j..]))
  {
    assert s[i..][..j - i] == s[i..j] && s[i..][j - i..] == s[j..];
    WalkPiece(p, s[i..], j - i);
  }

  lemma IsName(c: string)
    requires c != "" && '/' !in c && !(|c| == 1 && c[0] == '.') && !(|c| == 2 && c[0] == '.' && c[1] == '.')
    ensures Name(c)
  {}

  /** The component `s[start..end]` comes next. */
  ghost predicate AtComponent(buf: seq<char>, s: string, p: Path, o: nat, start: nat, end: nat) {
    && |s| < |buf| && 0 < o <= start < end <= |s| && (o < start || buf[o - 1] == '/') && (end == |s| || s[end] == '/')
    && buf[start..end] == s[start..end] && '/' !in s[start..end]
    && buf[end..|s|] == s[end..] && buf[|s|] == '\0' && '\0' !in s
    && buf[..o] == Render(p) && Normal(p) && '\0' !in buf[..o]
    && Walk(Apply(p, s[start..end]), Split(s[end..])) == Walk(ROOT, Split(s))
  }

  lemma SubSlice(buf: seq<char>, s: string, i: nat, a: nat, b: nat)
    requires i <= a <= b <= |s| <= |buf| && buf[i..|s|] == s[i..]
    ensures buf[a..b] == s[a..b] && buf[b..|s|] == s[b..]
  {
    assert forall k :: i <= k < |s| ==> buf[k] == buf[i..|s|][k - i] == s[i..][k - i] == s[k];
  }

  /** Skip slashes and find the end of the next component, if there is one. */
  method FindComponent(out: array<char>, o: nat, i: nat, ghost s: string, ghost p: Path) returns (start: nat, end: nat)
    requires out.Length == PATH_SIZE && Rewriting(out[..], s, p, o, i) && i < |s|
    ensures i <= start <= end <= |s|
    ensures if out[start] == '\0' then end == start && Rewriting(out[..], s, p, o, |s|)
              else AtComponent(out[..], s, p, o, start, end)
  {
    hide Walk, Split, Apply, Normal;
    ghost var buf := out[..];
    forall k | i <= k < |s| ensures out[k] == s[k] != '\0' {
      assert out[k] == buf[i..|s|][k - i] && s[k] in s;
    }
    if i == 1 {
      assert o == 1 && out[0] == buf[..o][0] == Render(p)[0];
      StartsWithSlash(p);
    }
    start := SkipSlashes(out, i, |s|);
    SkipPieces(p, s, i, start);
    end := start;
    if out[start] != '\0' {
      end := SkipName(out, start, |s|);
      SubSlice(buf, s, i, start, end);
      assert forall k :: start <= k < end ==> s[k] == out[k] != '/';
      TakePiece(p, s, start, end);
    }
  }

  lemma StartsWithSlash(p: Path)
    ensures Render(p)[0] == '/'
  {
    if p.parts != [] {
      TextSlash(p.parts);
    }
  }

  lemma TextSlash(parts: seq<string>)
    requires parts != []
    ensures Text(parts) != "" && Text(parts)[0] == '/'
  {
    if |parts| > 1 {
      TextSlash(parts[..|parts| - 1]);
    }
  }

  /** Drop a component, or the one before it, or keep it. */
  method DoComponent(out: array<char>, o: nat, start: nat, end: nat, ghost s: string, ghost p: Path) returns (o': nat)
    requires out.Length == PATH_SIZE && AtComponent(out[..], s, p, o, start, end)
    modifies out
    ensures Rewriting(out[..], s, Apply(p, s[start..end]), o', end)
  {
    hide Walk, Split, Render;
    ghost var c := s[start..end];
    assert out[start..end] == c;
    ApplyNormal(p, c);
    o' := o;
    var len := end - start;
    if len == 1 && out[start] == '.' {
      assert c == ".";
      return;
    }
    if len == 2 && out[start] == '.' && out[start + 1] == '.' {
      assert c == "..";
      ShortRoot(p);
      if o > 1 {
        o' := Pop(out, o, p);
      }
      return;
    }
    IsName(c);
    hide Apply, Normal;
    o' := KeepName(out, o, start, end, s, p);
  }

  method KeepName(out: array<char>, o: nat, start: nat, end: nat, ghost s: string, ghost p: Path) returns (o': nat)
    requires out.Length == PATH_SIZE && AtComponent(out[..], s, p, o, start, end) && Name(s[start..end])
    requires Normal(Apply(p, s[start..end]))
    modifies out
    ensures Rewriting(out[..], s, Apply(p, s[start..end]), o', end)
  {
    hide Walk, Split, Render, Apply, Normal, Name;
    ghost var c := s[start..end];
    assert out[start..end] == c && out[start..start + (end - start)] == c;
    o' := Push(out, o, start, end - start, p);
    RenderPush(p, c);
    assert out[end..|s|] == old(out[end..|s|]);
    assert '\0' !in c;
  }

  lemma NothingLeft(p: Path, s: string)
    ensures Walk(p, Split(s[|s|..])) == p
  {
    assert s[|s|..] == "" && Walk(p, [""]) == p;
  }

  /** Rewrite the absolute path in `out`; the text before the returned index is its normal form. */
  method Rewrite(out: array<char>, ghost s: string) returns (o: nat)
    requires out.Length == PATH_SIZE && Holds(out[..], s) && s != "" && s[0] == '/'
    modifies out
    ensures 0 < o <= |s| && out[..o] == Render(Walk(ROOT, Split(s))) && '\0' !in out[..o]
  {
    var i := 1;
    o := 1;
    ghost var p := ROOT;
    WalkSlash(ROOT, s);
    assert out[..1] == "/";
    while out[i] != '\0'
      invariant Rewriting(out[..], s, p, o, i)
      decreases |s| - i
    {
      var start, end := FindComponent(out, o, i, s, p);
      if out[start] == '\0' {
        i := start;
        break;
      }
      o := DoComponent(out, o, start, end, s, p);
      p, i := Apply(p, s[start..end]), end;
    }
    NothingLeft(p, s);
  }

  /** Copy at most 255 characters and fill up with NULs. */
  method CopyIn(path: array<char>, out: array<char>, ghost s: string)
    requires path != out && out.Length == PATH_SIZE && Holds(path[..], s)
    modifies out
    ensures Holds(out[..], Cut(s))
  {
    var k := 0;
    while k < PATH_SIZE - 1 && path[k] != '\0'
      invariant 0 <= k < PATH_SIZE && k <= |s| && out[..k] == s[..k]
    {
      assert path[k] == path[..|s|][k];
      out[k] := path[k];
      k := k + 1;
    }
    assert k == |Cut(s)| && s[..k] == Cut(s);
    while k < PATH_SIZE
      invariant |Cut(s)| <= k <= PATH_SIZE && out[..|Cut(s)|] == Cut(s) && (k > |Cut(s)| ==> out[|Cut(s)|] == '\0')
    {
      out[k] := '\0';
      k := k + 1;
    }
  }

  /** Copy the text of `out` with its NUL. */
  method CopyOut(out: array<char>, path: array<char>, ghost s: string)
    requires path != out && Holds(out[..], s) && |s| < path.Length
    modifies path
    ensures Holds(path[..], s)
  {
    var k := 0;
    while out[k] != '\0'
      invariant 0 <= k <= |s| && path[..k] == s[..k] && out[..] == old(out[..])
      decreases |s| - k
    {
      assert out[k] == out[..|s|][k];
      path[k] := out[k];
      k := k + 1;
    }
    assert k == |s|;
    path[k] := '\0';
  }

  /** Normalize a path in its own buffer. */
  method Normalize(path: array<char>, ghost s: string)
    requires Holds(path[..], s)
    modifies path
    ensures Holds(path[..], NormalForm(s))
  {
    var out := new char[PATH_SIZE];
    CopyIn(path, out, s);
    if out[0] != '/' {
      return;
    }
    var o := Rewrite(out, Cut(s));
    out[o] := '\0';
    CopyOut(out, path, out[..o]);
  }
}
