/**
 The uploads area as a set of paths relative to the working directory. A directory exists
 when its own path is in the set; the files inside it are the paths below it.
 */
module FileSystem {
  import opened Text

  type Fs = set<string>

  /** Going from `before` to `after`, only files in `gone` can disappear and only files in `added` can appear. */
  ghost predicate Framed(before: Fs, gone: set<string>, added: set<string>, after: Fs) {
    && (forall p :: p in before && p !in gone ==> p in after)
    && (forall p :: p in after ==> p in before || p in added)
  }

  /** `s` is one path segment: it holds no '/'. */
  predicate OneSegment(s: string) {
    forall i :: 0 <= i < |s| ==> s[i] != '/'
  }

  /**
   A relative path as `path.resolve` against the working directory leaves it: every run of '/'
   becomes one, and a trailing '/' goes. ("." and ".." segments are not resolved.)
   */
  function Resolve(p: string): (r: string)
    ensures NoRun(r, '/')
    ensures |r| > 0 ==> r[|r| - 1] != '/'
    ensures NoRun(p, '/') && (|p| == 0 || p[|p| - 1] != '/') ==> r == p
  {
    SqueezeNoRun(p, '/');
    SqueezeFixes(p, '/');
    var q := Squeeze(p, '/');
    if |q| > 0 && q[|q| - 1] == '/' then q[..|q| - 1] else q
  }

  /** Joining a one-segment name onto a path with no "//" and no trailing '/' keeps both properties. */
  lemma JoinSegment(a: string, b: string)
    requires NoRun(a, '/') && (|a| == 0 || a[|a| - 1] != '/')
    requires OneSegment(b) && b != ""
    ensures NoRun(a + "/" + b, '/') && (a + "/" + b)[|a + "/" + b| - 1] != '/'
  {
    var s := a + "/" + b;
    forall i | 0 <= i < |s| - 1 ensures !(s[i] == '/' && s[i + 1] == '/') {
      if i < |a| - 1 {
        assert s[i] == a[i] && s[i + 1] == a[i + 1];
      } else if i == |a| - 1 {
        assert s[i] == a[i];
      } else {
        assert s[i + 1] == b[i - |a|];
      }
    }
  }

  /** `p` is the directory `dir` itself or lies below it. */
  predicate Under(p: string, dir: string) {
    p == dir || (|dir| < |p| && p[..|dir| + 1] == dir + "/")
  }

  /**
   `top/slug/name` resolved: for an empty `slug` the "//" becomes one '/', otherwise nothing
   changes.
   */
  lemma ResolveNested(top: string, slug: string, name: string)
    requires NoRun(top, '/') && (|top| == 0 || top[|top| - 1] != '/')
    requires OneSegment(slug) && OneSegment(name) && name != ""
    ensures slug == "" ==> Resolve(top + "/" + slug + "/" + name) == top + "/" + name
    ensures slug != "" ==> Resolve(top + "/" + slug + "/" + name) == top + "/" + slug + "/" + name
  {
    if slug == "" {
      ResolveDoubled(top, name);
      assert top + "/" + slug + "/" + name == top + "/" + "/" + name;
    } else {
      JoinSegment(top, slug);
      JoinSegment(top + "/" + slug, name);
    }
  }

  /** `top//name` resolves to `top/name`. */
  lemma ResolveDoubled(top: string, name: string)
    requires NoRun(top, '/') && (|top| == 0 || top[|top| - 1] != '/')
    requires OneSegment(name) && name != ""
    ensures Resolve(top + "/" + "/" + name) == top + "/" + name
  {
    var p := top + "/" + "/" + name;
    var single := "/" + name;
    assert Squeeze("/" + single, '/') == single by {
      assert ("/" + single)[1..] == single;
      SqueezeCons('/', name, '/');
      SqueezeFixes(name, '/');
    }
    assert Squeeze(p, '/') == top + single by {
      assert p == top + ("/" + single);
      SqueezeAppend(top, "/" + single, '/');
    }
    assert top + single == top + "/" + name;
    JoinSegment(top, name);
  }

  /** `dir/rest` lies below `dir`. */
  lemma BelowDir(dir: string, rest: string)
    ensures Under(dir + "/" + rest, dir)
  {
    assert (dir + "/" + rest)[..|dir| + 1] == dir + "/";
  }

  /** Different texts after one prefix make different texts. */
  lemma SuffixesDiffer(pre: string, x: string, y: string)
    requires x != y
    ensures pre + x != pre + y
  {
    assert (pre + x)[|pre|..] == x && (pre + y)[|pre|..] == y;
  }

  /** A shared prefix does not change whether one path lies below another. */
  lemma UnderDropPrefix(top: string, p: string, dir: string)
    ensures Under(top + p, top + dir) ==> Under(p, dir)
  {
    assert (top + p)[|top|..] == p && (top + dir)[|top|..] == dir;
    if |top + dir| < |top + p| {
      assert (top + p)[..|top + dir| + 1][|top|..] == p[..|dir| + 1];
      assert (top + dir + "/")[|top|..] == dir + "/";
    }
  }

  /** A one-segment path lies below nothing but itself. */
  lemma SegmentUnder(x: string, y: string)
    requires OneSegment(x)
    ensures Under(x, y) ==> x == y
  {
    if |y| < |x| {
      assert x[..|y| + 1][|y|] == x[|y|] != '/' == (y + "/")[|y|];
    }
  }

  /** `b/tail` is not below a different one-segment name `a`. */
  lemma SiblingNotUnder(a: string, b: string, tail: string)
    requires a != b && OneSegment(a) && OneSegment(b)
    ensures !Under(b + "/" + tail, a)
  {
    var p := b + "/" + tail;
    if |a| < |b| {
      assert p[|a|] == b[|a|] != '/';
    } else if |b| < |a| {
      assert p[|b|] == '/' != a[|b|];
    } else {
      assert p[..|a|] == b;
    }
  }

  /**
   A best-effort `unlink` of every path in `targets`: the paths in `fails` are the ones whose
   unlink throws (missing file, permission); the failure is logged and never aborts the caller.
   */
  function UnlinkAll(fs: Fs, targets: set<string>, fails: set<string>): (r: Fs)
    ensures r <= fs
    ensures forall p :: p in targets && p !in fails ==> p !in r
    ensures forall p :: p in fs && (p !in targets || p in fails) ==> p in r
  {
    fs - (targets - fails)
  }

  /** `rmSync(dir, { recursive: true, force: true })`: the directory and everything below it go. */
  function RemoveTree(fs: Fs, dir: string): (r: Fs)
    ensures r <= fs
    ensures forall p :: p in r ==> !Under(p, dir)
    ensures forall p :: p in fs && !Under(p, dir) ==> p in r
  {
    set p | p in fs && !Under(p, dir)
  }

  /** The path `p` under `dir` moved to the same place under `dest`. */
  function Rebase(p: string, dir: string, dest: string): string
    requires Under(p, dir)
  {
    dest + p[|dir|..]
  }

  /** A child of `dir` moves to the same name under `dest`. */
  lemma RebaseChild(dir: string, dest: string, name: string)
    ensures Under(dir + "/" + name, dir)
    ensures Rebase(dir + "/" + name, dir, dest) == dest + "/" + name
  {
    BelowDir(dir, name);
    assert (dir + "/" + name)[|dir|..] == "/" + name;
  }

  /** `renameSync(dir, dest)` of a directory: everything below `dir` moves below `dest`. */
  function RenameTree(fs: Fs, dir: string, dest: string): (r: Fs)
    ensures forall p :: p in fs && Under(p, dir) ==> Rebase(p, dir, dest) in r
    ensures forall p :: p in fs && !Under(p, dir) ==> p in r
    ensures forall q :: q in r ==> (q in fs && !Under(q, dir)) || (exists p :: p in fs && Under(p, dir) && q == Rebase(p, dir, dest))
  {
    set p | p in fs :: if Under(p, dir) then Rebase(p, dir, dest) else p
  }

  /** `renameSync(from, to)` of one file. */
  function MoveFile(fs: Fs, from: string, to: string): (r: Fs)
    ensures to in r && (from != to ==> from !in r)
    ensures forall p :: p in fs && p != from ==> p in r
    ensures forall p :: p in r ==> p in fs || p == to
  {
    (fs - {from}) + {to}
  }
}
