/**
 * The path arithmetic shared by the image scripts (scripts/compress-images.mjs,
 * scripts/restore-high-quality.mjs): Node's `path.relative` and `path.join`
 * on paths written as lists of segments, and the public <-> backup mapping
 * built from them.
 */
module ScriptPaths {

  /** A relative path as its '/'-separated segments: "./public/a.jpg" is ["public", "a.jpg"]. */
  type Path = seq<string>

  const PublicDir: Path := ["public"]
  const BackupDir: Path := ["public", "_originals_backup"]

  /** A path with no empty, "." or ".." segment, as `readdir` names and the two directories are. */
  predicate Plain(p: Path) {
    forall i :: 0 <= i < |p| ==> p[i] != "" && p[i] != "." && p[i] != ".."
  }

  /** `n` copies of "..". */
  function Ups(n: nat): (p: Path)
    ensures |p| == n && forall i :: 0 <= i < n ==> p[i] == ".."
  {
    seq(n, _ => "..")
  }

  /** The number of leading segments two paths share. */
  function CommonPrefix(a: Path, b: Path): (n: nat)
    ensures n <= |a| && n <= |b| && a[..n] == b[..n]
    ensures n < |a| && n < |b| ==> a[n] != b[n]
  {
    if |a| == 0 || |b| == 0 || a[0] != b[0] then 0
    else
      var m := CommonPrefix(a[1..], b[1..]);
      assert a[..m + 1] == [a[0]] + a[1..][..m];
      assert b[..m + 1] == [b[0]] + b[1..][..m];
      1 + m
  }

  /** `path.relative(from, to)`: climb out of what `from` does not share with
      `to`, then descend into the rest of `to`. */
  function Relative(from: Path, to: Path): Path {
    var c := CommonPrefix(from, to);
    Ups(|from| - c) + to[c..]
  }

  /** Normalisation as `path.join` does it, segment by segment over a stack:
      "" and "." vanish, ".." removes the last real segment, or is kept when
      there is none to remove. */
  function Resolve(stack: Path, segs: Path): Path
    decreases |segs|
  {
    if segs == [] then stack
    else if segs[0] == "" || segs[0] == "." then Resolve(stack, segs[1..])
    else if segs[0] == ".." && |stack| > 0 && stack[|stack| - 1] != ".." then
      Resolve(stack[..|stack| - 1], segs[1..])
    else Resolve(stack + [segs[0]], segs[1..])
  }

  /** `path.join(base, rel)`. */
  function Join(base: Path, rel: Path): Path {
    Resolve([], base + rel)
  }

  /** Resolving plain segments only appends them. */
  lemma {:induction false} ResolvePlain(stack: Path, segs: Path)
    requires Plain(segs)
    ensures Resolve(stack, segs) == stack + segs
    decreases |segs|
  {
    if segs != [] {
      ResolvePlain(stack + [segs[0]], segs[1..]);
      assert stack + [segs[0]] + segs[1..] == stack + segs;
    }
  }

  /** Resolving a concatenation resolves the parts in turn. */
  lemma {:induction false} ResolveAppend(stack: Path, a: Path, b: Path)
    ensures Resolve(stack, a + b) == Resolve(Resolve(stack, a), b)
    decreases |a|
  {
    if a == [] {
      assert a + b == b;
    } else {
      assert (a + b)[0] == a[0];
      assert (a + b)[1..] == a[1..] + b;
      if a[0] == "" || a[0] == "." {
        ResolveAppend(stack, a[1..], b);
      } else if a[0] == ".." && |stack| > 0 && stack[|stack| - 1] != ".." {
        ResolveAppend(stack[..|stack| - 1], a[1..], b);
      } else {
        ResolveAppend(stack + [a[0]], a[1..], b);
      }
    }
  }

  /** Each ".." against a plain stack removes one segment. */
  lemma {:induction false} ResolveUps(stack: Path, k: nat, rest: Path)
    requires Plain(stack) && k <= |stack|
    ensures Resolve(stack, Ups(k) + rest) == Resolve(stack[..|stack| - k], rest)
    decreases k
  {
    if k > 0 {
      var segs := Ups(k) + rest;
      assert segs[0] == "..";
      assert segs[1..] == Ups(k - 1) + rest;
      var popped := stack[..|stack| - 1];
      assert Plain(popped);
      ResolveUps(popped, k - 1, rest);
      assert popped[..|popped| - (k - 1)] == stack[..|stack| - k];
    } else {
      assert Ups(0) + rest == rest;
      assert stack[..|stack|] == stack;
    }
  }

  /** Joining two plain paths concatenates them. */
  lemma JoinPlain(base: Path, rel: Path)
    requires Plain(base) && Plain(rel)
    ensures Join(base, rel) == base + rel
  {
    assert Plain(base + rel);
    ResolvePlain([], base + rel);
    assert [] + (base + rel) == base + rel;
  }

  /** `path.join(from, path.relative(from, to)) == to` for plain paths. */
  lemma JoinRelative(from: Path, to: Path)
    requires Plain(from) && Plain(to)
    ensures Join(from, Relative(from, to)) == to
  {
    var c := CommonPrefix(from, to);
    ResolveAppend([], from, Relative(from, to));
    ResolvePlain([], from);
    assert [] + from == from;
    ResolveUps(from, |from| - c, to[c..]);
    assert Plain(to[c..]);
    ResolvePlain(from[..c], to[c..]);
    assert from[..c] + to[c..] == to[..c] + to[c..] == to;
  }

  /** Relative to an ancestor directory, a path is its remaining segments. */
  lemma RelativeToAncestor(dir: Path, rest: Path)
    ensures Relative(dir, dir + rest) == rest
  {
    var c := CommonPrefix(dir, dir + rest);
    assert (dir + rest)[..|dir|] == dir;
    assert (dir + rest)[|dir|..] == rest;
  }

  /** Where compress-images copies a public file before overwriting it. */
  function BackupPath(file: Path): Path {
    Join(BackupDir, Relative(PublicDir, file))
  }

  /** Where restore-high-quality writes the re-encoded copy of a backup file. */
  function RestorePath(backup: Path): Path {
    Join(PublicDir, Relative(BackupDir, backup))
  }

  /** A file `rest` below the public directory is backed up to `rest` below
      the backup directory, a different path. */
  lemma BackupPathOfPublicFile(rest: Path)
    requires Plain(rest)
    ensures BackupPath(PublicDir + rest) == BackupDir + rest
    ensures BackupPath(PublicDir + rest) != PublicDir + rest
  {
    RelativeToAncestor(PublicDir, rest);
    JoinPlain(BackupDir, rest);
  }

  /** A file `rest` below the backup directory is restored to `rest` below the
      public directory. */
  lemma RestorePathOfBackupFile(rest: Path)
    requires Plain(rest)
    ensures RestorePath(BackupDir + rest) == PublicDir + rest
  {
    RelativeToAncestor(BackupDir, rest);
    JoinPlain(PublicDir, rest);
  }

  /** The two mappings are inverse: restoring a backup lands on the original
      public file, and backing up a restored file lands on the backup. */
  lemma BackupRestoreRoundTrip(rest: Path)
    requires Plain(rest)
    ensures RestorePath(BackupPath(PublicDir + rest)) == PublicDir + rest
    ensures BackupPath(RestorePath(BackupDir + rest)) == BackupDir + rest
  {
    BackupPathOfPublicFile(rest);
    RestorePathOfBackupFile(rest);
  }
}
