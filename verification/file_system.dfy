/**
 * The shell over an in-memory directory tree (q30-file-system-wildcard, Solution.java).
 *
 * A directory is identified by its path from the root, a sequence of names;
 * the tree is the prefix-closed set of existing paths. `mkdir` works like
 * `mkdir -p`, `cd` commits only when every segment resolves, and a `*`
 * segment in `cd` enters the lexicographically smallest child.
 */
module FileSystem {
  import opened Common
  import Strings
  import Ordering

  type Path = seq<string>

  datatype Shell = Shell(dirs: set<Path>, cwd: Path)

  // ---------------------------------------------------------------------------
  // Tokenizer
  // ---------------------------------------------------------------------------

  function StripLeft(s: string): (r: string)
    ensures |r| <= |s| && r == s[|s| - |r|..]
    ensures r == [] || !Strings.IsWhitespace(r[0])
  {
    if s == [] || !Strings.IsWhitespace(s[0]) then s else StripLeft(s[1..])
  }

  function StripRight(s: string): (r: string)
    ensures |r| <= |s| && r == s[..|r|]
    ensures r == [] || !Strings.IsWhitespace(r[|r| - 1])
  {
    if s == [] || !Strings.IsWhitespace(s[|s| - 1]) then s else StripRight(s[..|s| - 1])
  }

  /** The pieces that are not empty, in order. */
  function NonEmpty(raw: seq<string>): (out: seq<string>)
    ensures forall k :: 0 <= k < |out| ==> out[k] != [] && out[k] in raw
  {
    if raw == [] then []
    else (if raw[0] == [] then [] else [raw[0]]) + NonEmpty(raw[1..])
  }

  /** `tokenize`: strip surrounding whitespace, cut at every '/', and drop the empty pieces. */
  function Tokenize(path: string): (segs: seq<string>)
    ensures forall k :: 0 <= k < |segs| ==> segs[k] != [] && '/' !in segs[k]
  {
    NonEmpty(Strings.Split(StripRight(StripLeft(path)), '/'))
  }

  lemma {:induction false} NonEmptyKeeps(raw: seq<string>)
    requires forall k :: 0 <= k < |raw| ==> raw[k] != []
    ensures NonEmpty(raw) == raw
  {
    if raw != [] {
      NonEmptyKeeps(raw[1..]);
    }
  }

  /** `"/a/b"` for `[a, b]`: how `pwd` writes a path. */
  function Slashed(names: Path): string {
    if names == [] then "" else "/" + names[0] + Slashed(names[1..])
  }

  lemma {:induction false} SlashedJoin(names: Path)
    requires names != []
    ensures Slashed(names) == "/" + Strings.Join(names, '/')
  {
    if |names| > 1 {
      SlashedJoin(names[1..]);
    } else {
      assert Slashed(names[1..]) == "";
    }
  }

  // ---------------------------------------------------------------------------
  // The tree
  // ---------------------------------------------------------------------------

  /** A directory name as `mkdir` creates it: a token that is not ".", ".." or "*". */
  predicate IsName(n: string) {
    n != [] && '/' !in n && n != "." && n != ".." && n != "*"
  }

  predicate Closed(dirs: set<Path>) {
    [] in dirs && forall p :: p in dirs && p != [] ==> p[..|p| - 1] in dirs
  }

  ghost predicate Valid(fs: Shell) {
    Closed(fs.dirs) && fs.cwd in fs.dirs &&
    forall p, i :: p in fs.dirs && 0 <= i < |p| ==> IsName(p[i])
  }

  /** The constructor: only the root, which is also the working directory. */
  function Create(): (fs: Shell)
    ensures Valid(fs) && fs.cwd == [] && fs.dirs == {[]}
  {
    Shell({[]}, [])
  }

  /** `..`: the parent, the root being its own parent. */
  function Parent(p: Path): (q: Path)
    ensures p == [] ==> q == []
    ensures p != [] ==> q + [p[|p| - 1]] == p
  {
    if p == [] then [] else p[..|p| - 1]
  }

  function Children(dirs: set<Path>, d: Path): set<string> {
    set p | p in dirs && |p| == |d| + 1 && p[..|d|] == d :: p[|d|]
  }

  /** `firstKey` of the children map: the lexicographically smallest child name. */
  function SmallestChild(dirs: set<Path>, d: Path): (c: string)
    requires Children(dirs, d) != {}
    ensures c in Children(dirs, d)
    ensures forall x :: x in Children(dirs, d) ==> Strings.LessEq(c, x)
  {
    Ordering.Least(_ => 0, Children(dirs, d))
  }

  /** A path starting with '/' (before any trimming) is resolved from the root. */
  function Start(fs: Shell, path: string): Path {
    if |path| > 0 && path[0] == '/' then [] else fs.cwd
  }

  // ---------------------------------------------------------------------------
  // mkdir
  // ---------------------------------------------------------------------------

  /** Where the `mkdir` walk ends. */
  function MkEnd(cur: Path, segs: seq<string>): Path
    decreases |segs|
  {
    if segs == [] then cur
    else if segs[0] == "." || segs[0] == "*" then MkEnd(cur, segs[1..])
    else if segs[0] == ".." then MkEnd(Parent(cur), segs[1..])
    else MkEnd(cur + [segs[0]], segs[1..])
  }

  /** The directories the `mkdir` walk passes through by name (created when missing). */
  function MkVisited(cur: Path, segs: seq<string>): set<Path>
    decreases |segs|
  {
    if segs == [] then {}
    else if segs[0] == "." || segs[0] == "*" then MkVisited(cur, segs[1..])
    else if segs[0] == ".." then MkVisited(Parent(cur), segs[1..])
    else {cur + [segs[0]]} + MkVisited(cur + [segs[0]], segs[1..])
  }

  /** `mkdir`: create every missing directory along the path; the working directory does not move. */
  function Mkdir(fs: Shell, path: string): (fs': Shell)
    ensures fs'.cwd == fs.cwd && fs.dirs <= fs'.dirs
  {
    fs.(dirs := fs.dirs + MkVisited(Start(fs, path), Tokenize(path)))
  }

  lemma {:induction false} MkWalkClosed(dirs: set<Path>, cur: Path, segs: seq<string>)
    requires Closed(dirs) && cur in dirs
    requires forall k :: 0 <= k < |segs| ==> segs[k] != [] && '/' !in segs[k]
    requires forall p, i :: p in dirs && 0 <= i < |p| ==> IsName(p[i])
    ensures Closed(dirs + MkVisited(cur, segs)) && MkEnd(cur, segs) in dirs + MkVisited(cur, segs)
    ensures forall p, i :: p in dirs + MkVisited(cur, segs) && 0 <= i < |p| ==> IsName(p[i])
    decreases |segs|
  {
    if segs != [] {
      var rest := segs[1..];
      assert forall k :: 0 <= k < |rest| ==> rest[k] != [] && '/' !in rest[k] by {
        forall k | 0 <= k < |rest| ensures rest[k] != [] && '/' !in rest[k] {
          assert rest[k] == segs[k + 1];
        }
      }
      if segs[0] == "." || segs[0] == "*" {
        MkWalkClosed(dirs, cur, rest);
      } else if segs[0] == ".." {
        MkWalkClosed(dirs, Parent(cur), rest);
      } else {
        var next := cur + [segs[0]];
        var d := dirs + {next};
        assert next[..|next| - 1] == cur;
        forall p, i | p in d && 0 <= i < |p| ensures IsName(p[i]) {
          if p == next && i == |cur| {
            assert p[i] == segs[0];
          } else if p == next {
            assert p[i] == cur[i];
          }
        }
        MkWalkClosed(d, next, rest);
        assert d + MkVisited(next, rest) == dirs + MkVisited(cur, segs);
      }
    }
  }

  /** The named segments of a walk, with "." and "*" dropped. */
  function Names(segs: seq<string>): (n: seq<string>)
    ensures |n| <= |segs|
    decreases |segs|
  {
    if segs == [] then []
    else if segs[0] == "." || segs[0] == "*" then Names(segs[1..])
    else [segs[0]] + Names(segs[1..])
  }

  /**
   * Without "..", the `mkdir` walk ends at the start extended by every named
   * segment, and the directories it creates are exactly the non-empty
   * prefixes of that extension.
   */
  lemma {:induction false} MkWalkDescends(cur: Path, segs: seq<string>)
    requires forall k :: 0 <= k < |segs| ==> segs[k] != ".."
    ensures MkEnd(cur, segs) == cur + Names(segs)
    ensures forall p :: p in MkVisited(cur, segs) <==>
      exists i :: 1 <= i <= |Names(segs)| && p == cur + Names(segs)[..i]
    decreases |segs|
  {
    if segs != [] {
      var rest := segs[1..];
      assert forall k :: 0 <= k < |rest| ==> rest[k] != ".." by {
        forall k | 0 <= k < |rest| ensures rest[k] != ".." {
          assert rest[k] == segs[k + 1];
        }
      }
      if segs[0] == "." || segs[0] == "*" {
        MkWalkDescends(cur, rest);
      } else {
        var next := cur + [segs[0]];
        MkWalkDescends(next, rest);
        assert Names(segs) == [segs[0]] + Names(rest);
        PrefixesCons(cur, segs[0], Names(rest), MkVisited(next, rest));
      }
    }
  }

  /** One named step: the prefixes of `[s] + n` below `cur` are `cur + [s]` and the prefixes of `n` below it. */
  lemma PrefixesCons(cur: Path, s: string, n: seq<string>, v: set<Path>)
    requires forall p :: p in v <==> exists j :: 1 <= j <= |n| && p == cur + [s] + n[..j]
    ensures forall p :: p in {cur + [s]} + v <==> exists i :: 1 <= i <= |[s] + n| && p == cur + ([s] + n)[..i]
  {
    var m := [s] + n;
    forall p | p in {cur + [s]} + v
      ensures exists i :: 1 <= i <= |m| && p == cur + m[..i]
    {
      if p == cur + [s] {
        assert m[..1] == [s];
      } else {
        assert p in v;
        var j :| 1 <= j <= |n| && p == cur + [s] + n[..j];
        assert m[..j + 1] == [s] + n[..j];
        assert p == cur + m[..j + 1];
      }
    }
    forall p | exists i :: 1 <= i <= |m| && p == cur + m[..i]
      ensures p in {cur + [s]} + v
    {
      var i :| 1 <= i <= |m| && p == cur + m[..i];
      if i == 1 {
        assert m[..1] == [s];
      } else {
        assert m[..i] == [s] + n[..i - 1];
        assert p == cur + [s] + n[..i - 1];
      }
    }
  }

  /**
   * `mkdir` on a path without ".." adds exactly the directories named by its
   * non-empty prefixes, resolved from the start directory, and nothing else.
   */
  lemma MkdirAddsPrefixes(fs: Shell, path: string)
    requires forall k :: 0 <= k < |Tokenize(path)| ==> Tokenize(path)[k] != ".."
    ensures var n := Names(Tokenize(path));
      forall p :: p in Mkdir(fs, path).dirs <==>
        p in fs.dirs || exists i :: 1 <= i <= |n| && p == Start(fs, path) + n[..i]
  {
    MkWalkDescends(Start(fs, path), Tokenize(path));
  }

  lemma MkdirPreservesValid(fs: Shell, path: string)
    requires Valid(fs)
    ensures Valid(Mkdir(fs, path))
    ensures MkEnd(Start(fs, path), Tokenize(path)) in Mkdir(fs, path).dirs
  {
    MkWalkClosed(fs.dirs, Start(fs, path), Tokenize(path));
  }

  /** Running the same `mkdir` twice is the same as running it once. */
  lemma MkdirIdempotent(fs: Shell, path: string)
    ensures Mkdir(Mkdir(fs, path), path) == Mkdir(fs, path)
  {
    var fs' := Mkdir(fs, path);
    assert Start(fs', path) == Start(fs, path);
  }

  // ---------------------------------------------------------------------------
  // cd
  // ---------------------------------------------------------------------------

  /** The `cd` walk: `None` as soon as a named segment does not exist. */
  function CdWalk(dirs: set<Path>, trial: Path, segs: seq<string>): Option<Path>
    decreases |segs|
  {
    if segs == [] then Some(trial)
    else
      var seg := segs[0];
      if seg == "." then CdWalk(dirs, trial, segs[1..])
      else if seg == ".." then CdWalk(dirs, Parent(trial), segs[1..])
      else if seg == "*" then
        CdWalk(dirs, if Children(dirs, trial) == {} then trial else trial + [SmallestChild(dirs, trial)], segs[1..])
      else if trial + [seg] in dirs then CdWalk(dirs, trial + [seg], segs[1..])
      else None
  }

  /** `cd`: move to the walk's end, or stay put when it fails. */
  function Cd(fs: Shell, path: string): (fs': Shell)
    ensures fs'.dirs == fs.dirs
    ensures CdWalk(fs.dirs, Start(fs, path), Tokenize(path)).None? ==> fs' == fs
  {
    match CdWalk(fs.dirs, Start(fs, path), Tokenize(path))
    case None => fs
    case Some(d) => fs.(cwd := d)
  }

  lemma {:induction false} CdWalkStaysInside(dirs: set<Path>, trial: Path, segs: seq<string>)
    requires Closed(dirs) && trial in dirs
    ensures CdWalk(dirs, trial, segs).Some? ==> CdWalk(dirs, trial, segs).value in dirs
    decreases |segs|
  {
    if segs != [] {
      var seg := segs[0];
      if seg == "." {
        CdWalkStaysInside(dirs, trial, segs[1..]);
      } else if seg == ".." {
        CdWalkStaysInside(dirs, Parent(trial), segs[1..]);
      } else if seg == "*" {
        if Children(dirs, trial) != {} {
          var c := SmallestChild(dirs, trial);
          var p :| p in dirs && |p| == |trial| + 1 && p[..|trial|] == trial && p[|trial|] == c;
          assert p == trial + [c];
        }
        CdWalkStaysInside(dirs, if Children(dirs, trial) == {} then trial else trial + [SmallestChild(dirs, trial)], segs[1..]);
      } else if trial + [seg] in dirs {
        CdWalkStaysInside(dirs, trial + [seg], segs[1..]);
      }
    }
  }

  lemma CdPreservesValid(fs: Shell, path: string)
    requires Valid(fs)
    ensures Valid(Cd(fs, path))
  {
    CdWalkStaysInside(fs.dirs, Start(fs, path), Tokenize(path));
  }

  /** Once the `mkdir` walk's directories exist, a `cd` along the same segments (without `*`) ends where `mkdir` ended. */
  lemma {:induction false} CdFollowsMkdir(dirs: set<Path>, cur: Path, segs: seq<string>)
    requires MkVisited(cur, segs) <= dirs
    requires forall k :: 0 <= k < |segs| ==> segs[k] != "*"
    ensures CdWalk(dirs, cur, segs) == Some(MkEnd(cur, segs))
    decreases |segs|
  {
    if segs != [] {
      var rest := segs[1..];
      assert forall k :: 0 <= k < |rest| ==> rest[k] != "*" by {
        forall k | 0 <= k < |rest| ensures rest[k] != "*" { assert rest[k] == segs[k + 1]; }
      }
      if segs[0] == "." {
        CdFollowsMkdir(dirs, cur, rest);
      } else if segs[0] == ".." {
        CdFollowsMkdir(dirs, Parent(cur), rest);
      } else {
        assert segs[0] != "*";
        CdFollowsMkdir(dirs, cur + [segs[0]], rest);
      }
    }
  }

  /** `cd p` right after `mkdir p` (with no `*` in p) succeeds and lands on the directory `mkdir` reached. */
  lemma CdAfterMkdir(fs: Shell, path: string)
    requires forall k :: 0 <= k < |Tokenize(path)| ==> Tokenize(path)[k] != "*"
    ensures Cd(Mkdir(fs, path), path).cwd == MkEnd(Start(fs, path), Tokenize(path))
  {
    var fs' := Mkdir(fs, path);
    assert Start(fs', path) == Start(fs, path);
    CdFollowsMkdir(fs'.dirs, Start(fs, path), Tokenize(path));
  }

  /** A single slash-free name with no surrounding whitespace tokenizes to itself. */
  lemma TokenizeSingle(name: string)
    requires name != [] && '/' !in name
    requires !Strings.IsWhitespace(name[0]) && !Strings.IsWhitespace(name[|name| - 1])
    ensures Tokenize(name) == [name]
  {
    assert StripLeft(name) == name;
    assert StripRight(name) == name;
    assert Strings.IndexOf(name, '/') == |name|;
    assert Strings.Split(name, '/') == [name];
    assert NonEmpty([name]) == [name];
  }

  /** A `*` segment enters the smallest child, or stays where it is when there is none. */
  lemma CdStar(fs: Shell)
    ensures Children(fs.dirs, fs.cwd) == {} ==> Cd(fs, "*").cwd == fs.cwd
    ensures Children(fs.dirs, fs.cwd) != {} ==> Cd(fs, "*").cwd == fs.cwd + [SmallestChild(fs.dirs, fs.cwd)]
  {
    TokenizeSingle("*");
  }

  /** `cd ..` at the root stays at the root. */
  lemma CdUpAtRoot(fs: Shell)
    requires fs.cwd == []
    ensures Cd(fs, "..").cwd == []
  {
    TokenizeSingle("..");
  }

  // ---------------------------------------------------------------------------
  // pwd
  // ---------------------------------------------------------------------------

  /** `pwd`: "/" at the root, otherwise "/" before each name from the root down. */
  function Pwd(fs: Shell): (s: string)
    ensures s != [] && s[0] == '/'
  {
    if fs.cwd == [] then "/" else Slashed(fs.cwd)
  }

  lemma StripUnchanged(s: string)
    requires s != [] && !Strings.IsWhitespace(s[0]) && !Strings.IsWhitespace(s[|s| - 1])
    ensures StripRight(StripLeft(s)) == s
  {
    assert StripLeft(s) == s;
  }

  lemma SplitLeadingSlash(j: string)
    ensures Strings.Split("/" + j, '/') == [""] + Strings.Split(j, '/')
  {
    var s := "/" + j;
    assert Strings.IndexOf(s, '/') == 0;
    assert s[1..] == j;
  }

  /** Reading `pwd` back with the tokenizer gives the working directory, unless its last name ends in whitespace. */
  lemma PwdTokenizes(fs: Shell)
    requires forall i :: 0 <= i < |fs.cwd| ==> fs.cwd[i] != [] && '/' !in fs.cwd[i]
    requires fs.cwd != [] ==> !Strings.IsWhitespace(fs.cwd[|fs.cwd| - 1][|fs.cwd[|fs.cwd| - 1]| - 1])
    ensures Tokenize(Pwd(fs)) == fs.cwd
  {
    if fs.cwd == [] {
      SplitLeadingSlash("");
      assert Strings.Split("", '/') == [""];
      StripUnchanged("/");
    } else {
      var j := Strings.Join(fs.cwd, '/');
      SlashedJoin(fs.cwd);
      JoinLast(fs.cwd);
      var s := "/" + j;
      assert s[|s| - 1] == j[|j| - 1];
      StripUnchanged(s);
      SplitLeadingSlash(j);
      Strings.SplitJoin(fs.cwd, '/');
      NonEmptyKeeps(fs.cwd);
      assert NonEmpty([""] + fs.cwd) == NonEmpty(fs.cwd) by {
        assert ([""] + fs.cwd)[1..] == fs.cwd;
      }
    }
  }

  lemma {:induction false} JoinLast(names: Path)
    requires names != [] && names[|names| - 1] != []
    ensures var j := Strings.Join(names, '/');
            j != [] && j[|j| - 1] == names[|names| - 1][|names[|names| - 1]| - 1]
  {
    if |names| > 1 {
      JoinLast(names[1..]);
    }
  }
}
