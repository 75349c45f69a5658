/**
 * The recursive directory scans of the image scripts: `getImageFiles` in
 * scripts/compress-images.mjs and scripts/compress-aggressive.mjs (large
 * JPEG/PNG files, backup directory skipped) and `getBackupFiles` in
 * scripts/restore-high-quality.mjs (every JPEG/PNG).  The file system is a
 * value: a directory is the list `readdirSync` returns, in that order.
 */
module ImageScan {
  import opened ScriptPaths

  datatype Entry =
    | File(name: string, size: nat)
    | Dir(name: string, entries: seq<Entry>)

  /** A file the compression scripts push: `{ path, size }`. */
  datatype FoundFile = FoundFile(path: Path, size: nat)

  const MinSize: nat := 500 * 1024
  const Marker: string := "_originals_backup"

  /** ASCII lower case, which is all the case-insensitive regex can fold for
      the letters of "jpg", "jpeg" and "png". */
  function Lower(c: char): char {
    if 'A' <= c <= 'Z' then (c as int + 32) as char else c
  }

  /** `s` ends with `suffix` (given in lower case), ignoring case. */
  predicate EndsWithIgnoringCase(s: string, suffix: string) {
    |s| >= |suffix| && forall i :: 0 <= i < |suffix| ==> Lower(s[|s| - |suffix| + i]) == suffix[i]
  }

  /** The name test `/\.(jpg|jpeg|png)$/i`. */
  predicate HasImageExtension(name: string) {
    EndsWithIgnoringCase(name, ".jpg") || EndsWithIgnoringCase(name, ".jpeg") || EndsWithIgnoringCase(name, ".png")
  }

  predicate OccursAt(sub: string, s: string, k: nat) {
    k + |sub| <= |s| && s[k..k + |sub|] == sub
  }

  /** `s.includes(sub)`. */
  predicate Includes(s: string, sub: string) {
    exists k :: 0 <= k <= |s| && OccursAt(sub, s, k)
  }

  /** `fullPath.includes('_originals_backup')`, segment by segment: the marker
      has no '/', so it can only occur inside one segment. */
  predicate ContainsMarker(p: Path) {
    exists i :: 0 <= i < |p| && Includes(p[i], Marker)
  }

  function Parent(p: Path): Path {
    if p == [] then [] else p[..|p| - 1]
  }

  /** What the compression scan selects below `dir`, in visiting order. */
  function Selected(dir: Path, es: seq<Entry>): seq<FoundFile>
    decreases es
  {
    if es == [] then [] else SelectedIn(dir, es[0]) + Selected(dir, es[1..])
  }

  function SelectedIn(dir: Path, e: Entry): seq<FoundFile>
    decreases e
  {
    match e
    case File(name, size) =>
      if HasImageExtension(name) && size > MinSize then [FoundFile(dir + [name], size)] else []
    case Dir(name, entries) =>
      if ContainsMarker(dir + [name]) then [] else Selected(dir + [name], entries)
  }

  /** Every JPEG/PNG file below `dir` with its size, in visiting order: the
      reference the two scans are compared with. */
  function Images(dir: Path, es: seq<Entry>): seq<FoundFile>
    decreases es
  {
    if es == [] then [] else ImagesIn(dir, es[0]) + Images(dir, es[1..])
  }

  function ImagesIn(dir: Path, e: Entry): seq<FoundFile>
    decreases e
  {
    match e
    case File(name, size) => if HasImageExtension(name) then [FoundFile(dir + [name], size)] else []
    case Dir(name, entries) => Images(dir + [name], entries)
  }

  function PathsOf(fs: seq<FoundFile>): (ps: seq<Path>)
    ensures |ps| == |fs| && forall i :: 0 <= i < |fs| ==> ps[i] == fs[i].path
  {
    seq(|fs|, i requires 0 <= i < |fs| => fs[i].path)
  }

  /** The compression scripts' filter: large, and not inside a skipped directory. */
  predicate Wanted(f: FoundFile) {
    f.size > MinSize && !ContainsMarker(Parent(f.path))
  }

  function KeepWanted(fs: seq<FoundFile>): (r: seq<FoundFile>)
    ensures forall f :: f in r ==> f in fs && Wanted(f)
    ensures forall f :: f in fs && Wanted(f) ==> f in r
  {
    if fs == [] then [] else (if Wanted(fs[0]) then [fs[0]] else []) + KeepWanted(fs[1..])
  }

  lemma {:induction false} KeepWantedAppend(a: seq<FoundFile>, b: seq<FoundFile>)
    ensures KeepWanted(a + b) == KeepWanted(a) + KeepWanted(b)
  {
    if a == [] {
      assert a + b == b;
    } else {
      assert (a + b)[0] == a[0];
      assert (a + b)[1..] == a[1..] + b;
      KeepWantedAppend(a[1..], b);
    }
  }

  lemma {:induction false} SelectedAppend(dir: Path, a: seq<Entry>, b: seq<Entry>)
    ensures Selected(dir, a + b) == Selected(dir, a) + Selected(dir, b)
  {
    if a == [] {
      assert a + b == b;
    } else {
      assert (a + b)[0] == a[0];
      assert (a + b)[1..] == a[1..] + b;
      SelectedAppend(dir, a[1..], b);
    }
  }

  lemma {:induction false} ImagesAppend(dir: Path, a: seq<Entry>, b: seq<Entry>)
    ensures Images(dir, a + b) == Images(dir, a) + Images(dir, b)
  {
    if a == [] {
      assert a + b == b;
    } else {
      assert (a + b)[0] == a[0];
      assert (a + b)[1..] == a[1..] + b;
      ImagesAppend(dir, a[1..], b);
    }
  }

  /** Every image found below `dir` lies strictly inside it. */
  lemma {:induction false} ImagesBelow(dir: Path, es: seq<Entry>)
    ensures forall f :: f in Images(dir, es) ==> |f.path| > |dir| && f.path[..|dir|] == dir
    decreases es
  {
    if es != [] {
      match es[0] {
        case File(name, size) =>
        case Dir(name, entries) =>
          ImagesBelow(dir + [name], entries);
          forall f | f in Images(dir + [name], entries)
            ensures f.path[..|dir|] == dir
          {
            assert f.path[..|dir|] == f.path[..|dir| + 1][..|dir|];
          }
      }
      ImagesBelow(dir, es[1..]);
    }
  }

  /** A marker in a directory is a marker in every path below it. */
  lemma MarkerInherited(dir: Path, p: Path)
    requires ContainsMarker(dir) && |p| >= |dir| && p[..|dir|] == dir
    ensures ContainsMarker(p)
  {
    var i :| 0 <= i < |dir| && Includes(dir[i], Marker);
    assert p[i] == dir[i];
  }

  /** Inside a skipped directory no file is wanted. */
  lemma NothingWantedBelowMarker(dir: Path, es: seq<Entry>)
    requires ContainsMarker(dir)
    ensures KeepWanted(Images(dir, es)) == []
  {
    ImagesBelow(dir, es);
    var r := KeepWanted(Images(dir, es));
    if r != [] {
      var f := r[0];
      assert f in Images(dir, es);
      MarkerInherited(dir, Parent(f.path));
      assert false;
    }
  }

  /** The compression scan's result, characterised: starting outside any
      backup directory, it is exactly the JPEG/PNG files over 500 KiB whose
      directory path does not mention the backup marker, in visiting order. */
  lemma {:induction false} SelectedIsWantedImages(dir: Path, es: seq<Entry>)
    requires !ContainsMarker(dir)
    ensures Selected(dir, es) == KeepWanted(Images(dir, es))
    decreases es
  {
    if es != [] {
      match es[0] {
        case File(name, size) =>
          assert Parent(dir + [name]) == dir;
        case Dir(name, entries) =>
          if ContainsMarker(dir + [name]) {
            NothingWantedBelowMarker(dir + [name], entries);
          } else {
            SelectedIsWantedImages(dir + [name], entries);
          }
      }
      SelectedIsWantedImages(dir, es[1..]);
      KeepWantedAppend(ImagesIn(dir, es[0]), Images(dir, es[1..]));
    }
  }

  /** `getImageFiles(dir, files)`: appends what is selected below `dir` to the
      accumulator, visiting entries in order and recursing into directories. */
  method GetImageFiles(dir: Path, entries: seq<Entry>, files: seq<FoundFile>) returns (out: seq<FoundFile>)
    ensures out == files + Selected(dir, entries)
    decreases entries
  {
    out := files;
    for i := 0 to |entries|
      invariant out == files + Selected(dir, entries[..i])
    {
      SelectedAppend(dir, entries[..i], [entries[i]]);
      assert entries[..i + 1] == entries[..i] + [entries[i]];
      assert Selected(dir, [entries[i]]) == SelectedIn(dir, entries[i]) by {
        assert [entries[i]][1..] == [];
      }
      match entries[i]
      case Dir(name, sub) =>
        if !ContainsMarker(dir + [name]) {
          out := GetImageFiles(dir + [name], sub, out);
        }
      case File(name, size) =>
        if HasImageExtension(name) {
          if size > MinSize {
            out := out + [FoundFile(dir + [name], size)];
          }
        }
    }
    assert entries[..|entries|] == entries;
  }

  /** `getBackupFiles(dir, files)`: every JPEG/PNG path below `dir`, with no
      size threshold and no directory skipped. */
  method GetBackupFiles(dir: Path, entries: seq<Entry>, files: seq<Path>) returns (out: seq<Path>)
    ensures out == files + PathsOf(Images(dir, entries))
    decreases entries
  {
    out := files;
    for i := 0 to |entries|
      invariant out == files + PathsOf(Images(dir, entries[..i]))
    {
      ImagePathsStep(dir, entries, i);
      match entries[i] {
        case Dir(name, sub) =>
          out := GetBackupFiles(dir + [name], sub, out);
        case File(name, size) =>
          if HasImageExtension(name) {
            out := out + [dir + [name]];
          }
      }
    }
    assert entries[..|entries|] == entries;
  }

  lemma ImagePathsStep(dir: Path, entries: seq<Entry>, i: nat)
    requires i < |entries|
    ensures PathsOf(Images(dir, entries[..i + 1]))
         == PathsOf(Images(dir, entries[..i])) + PathsOf(ImagesIn(dir, entries[i]))
    ensures entries[i].File? && HasImageExtension(entries[i].name) ==>
      PathsOf(ImagesIn(dir, entries[i])) == [dir + [entries[i].name]]
    ensures entries[i].File? && !HasImageExtension(entries[i].name) ==> PathsOf(ImagesIn(dir, entries[i])) == []
    ensures entries[i].Dir? ==> ImagesIn(dir, entries[i]) == Images(dir + [entries[i].name], entries[i].entries)
  {
    ImagesAppend(dir, entries[..i], [entries[i]]);
    assert entries[..i + 1] == entries[..i] + [entries[i]];
    assert Images(dir, [entries[i]]) == ImagesIn(dir, entries[i]) by {
      assert [entries[i]][1..] == [];
    }
    PathsOfAppend(Images(dir, entries[..i]), ImagesIn(dir, entries[i]));
  }

  lemma PathsOfAppend(a: seq<FoundFile>, b: seq<FoundFile>)
    ensures PathsOf(a + b) == PathsOf(a) + PathsOf(b)
  {
    assert |PathsOf(a + b)| == |PathsOf(a) + PathsOf(b)|;
    forall i | 0 <= i < |a + b|
      ensures PathsOf(a + b)[i] == (PathsOf(a) + PathsOf(b))[i]
    {
      if i < |a| {
        assert (a + b)[i] == a[i];
      } else {
        assert (a + b)[i] == b[i - |a|];
      }
    }
  }
}
