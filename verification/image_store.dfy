/**
 * The three image scripts as operations on a store of files:
 * `compressImage` of scripts/compress-images.mjs (back up, then re-encode at
 * 2400 px / quality 90), `compressImage` of scripts/compress-aggressive.mjs
 * (1600 px, quality search, no backup), `restoreAndCompress` of
 * scripts/restore-high-quality.mjs, and the `main` loops summing sizes.
 * `sharp` is a parameter: `encode` gives the size of the JPEG it writes.
 */
module ImageStore {
  import opened Options
  import opened ScriptPaths
  import opened ImageResize
  import opened QualitySearch
  import ImageScan

  /** A stored image: its byte size and, when `sharp` can read it, its
      dimensions (None: reading the metadata fails). */
  datatype Picture = Picture(size: nat, dims: Option<Dims>)

  datatype JpegOptions = JpegOptions(quality: nat, mozjpeg: bool)

  /** The encoder: source image, target dimensions and options to output size. */
  type Encoder = (Picture, Dims, JpegOptions) -> nat

  const StandardQuality: nat := 90

  /** What `compressImage` returns, or a failure caught by `main`. */
  datatype Outcome = Compressed(original: nat, compressed: nat) | Failed

  /** A file below the public directory with plain names. */
  predicate InPublic(p: Path) {
    |p| > |PublicDir| && p[..|PublicDir|] == PublicDir && Plain(p[|PublicDir|..])
  }

  /** A file below the backup directory with plain names. */
  predicate InBackup(p: Path) {
    |p| > |BackupDir| && p[..|BackupDir|] == BackupDir && Plain(p[|BackupDir|..])
  }

  /** What re-encoding `source` to `dims` writes. */
  function Reencoded(encode: Encoder, source: Picture, dims: Dims, opts: JpegOptions): (p: Picture)
    ensures p.dims == Some(dims)
  {
    Picture(encode(source, dims, opts), Some(dims))
  }

  /** The standard re-encoding shared by compress-images and restore-high-quality. */
  function StandardOutput(encode: Encoder, source: Picture): (p: Picture)
    requires source.dims.Some?
    ensures p.dims == Some(Cap(source.dims.value, StandardMaxWidth))
    ensures p.dims.value.width <= StandardMaxWidth
  {
    var dims := Cap(source.dims.value, StandardMaxWidth);
    Reencoded(encode, source, dims, JpegOptions(StandardQuality, false))
  }

  /** The aggressive encoder's output size at each quality, for one image. */
  function AggressiveSizes(encode: Encoder, source: Picture, dims: Dims): nat -> nat {
    q => encode(source, dims, JpegOptions(q, true))
  }

  lemma BackupOfPublicFile(file: Path)
    requires InPublic(file)
    ensures InBackup(BackupPath(file)) && BackupPath(file) != file
    ensures RestorePath(BackupPath(file)) == file
  {
    var rest := file[|PublicDir|..];
    assert file == PublicDir + rest;
    BackupRestoreRoundTrip(rest);
    BackupPathOfPublicFile(rest);
    assert (BackupDir + rest)[..|BackupDir|] == BackupDir;
    assert (BackupDir + rest)[|BackupDir|..] == rest;
  }

  lemma RestoreOfBackupFile(backup: Path)
    requires InBackup(backup)
    ensures InPublic(RestorePath(backup))
    ensures BackupPath(RestorePath(backup)) == backup
  {
    var rest := backup[|BackupDir|..];
    assert backup == BackupDir + rest;
    RestorePathOfBackupFile(rest);
    BackupRestoreRoundTrip(rest);
    assert (PublicDir + rest)[..|PublicDir|] == PublicDir;
    assert (PublicDir + rest)[|PublicDir|..] == rest;
  }

  /** The aggressive re-encoding: 1600 px cap at the searched quality.  An
      output still over the target is the quality-60 encoding. */
  function AggressiveOutput(encode: Encoder, source: Picture): (p: Picture)
    requires source.dims.Some?
    ensures p.dims == Some(Cap(source.dims.value, AggressiveMaxWidth))
    ensures p.dims.value.width <= AggressiveMaxWidth
    ensures p.size <= TargetSize ||
      p.size == encode(source, Cap(source.dims.value, AggressiveMaxWidth), JpegOptions(MinQuality, true))
  {
    var dims := Cap(source.dims.value, AggressiveMaxWidth);
    var quality := Settle(AggressiveSizes(encode, source, dims), InitialQuality);
    SettleIsFirstUnderTarget(AggressiveSizes(encode, source, dims), InitialQuality);
    Reencoded(encode, source, dims, JpegOptions(quality, true))
  }

  /** What a step of a script reports, and the store it leaves. */
  datatype Effect<R> = Effect(result: R, files: map<Path, Picture>)

  /** Paths other than `a` and `b` keep their presence and content. */
  ghost predicate OnlyWrites(before: map<Path, Picture>, after: map<Path, Picture>, a: Path, b: Path) {
    forall p :: p != a && p != b ==> (p in after <==> p in before) && (p in before ==> after[p] == before[p])
  }

  /** `compressImage` of compress-images on a store: it fails exactly when the
      file is missing or unreadable; the backup receives the original
      whenever the file exists; on success the file holds the standard
      output; nothing else is written. */
  function StandardStep(files: map<Path, Picture>, file: Path, originalSize: nat, encode: Encoder): (e: Effect<Outcome>)
    requires InPublic(file)
    ensures e.result.Failed? <==> file !in files || files[file].dims.None?
    ensures e.result.Compressed? ==>
      e.result == Compressed(originalSize, StandardOutput(encode, files[file]).size) &&
      file in e.files && e.files[file] == StandardOutput(encode, files[file])
    ensures file in files ==> BackupPath(file) in e.files && e.files[BackupPath(file)] == files[file]
    ensures e.result.Failed? ==> OnlyWrites(files, e.files, BackupPath(file), BackupPath(file))
    ensures OnlyWrites(files, e.files, file, BackupPath(file))
  {
    BackupOfPublicFile(file);
    if file !in files then Effect(Failed, files)
    else
      var backedUp := files[BackupPath(file) := files[file]];
      if files[file].dims.None? then Effect(Failed, backedUp)
      else
        var written := StandardOutput(encode, files[file]);
        Effect(Compressed(originalSize, written.size), backedUp[file := written])
  }

  /** `compressImage` of compress-aggressive on a store: it fails exactly
      when the file is missing or unreadable, and then writes nothing; on
      success only the file itself is overwritten. */
  function AggressiveStep(files: map<Path, Picture>, file: Path, originalSize: nat, encode: Encoder): (e: Effect<Outcome>)
    ensures e.result.Failed? <==> file !in files || files[file].dims.None?
    ensures e.result.Failed? ==> e.files == files
    ensures e.result.Compressed? ==>
      e.result == Compressed(originalSize, AggressiveOutput(encode, files[file]).size) &&
      file in e.files && e.files[file] == AggressiveOutput(encode, files[file])
    ensures OnlyWrites(files, e.files, file, file)
  {
    if file !in files || files[file].dims.None? then Effect(Failed, files)
    else
      var written := AggressiveOutput(encode, files[file]);
      Effect(Compressed(originalSize, written.size), files[file := written])
  }

  /** `restoreAndCompress` on a store: it fails exactly when the backup is
      missing or unreadable, and then writes nothing; otherwise the matching
      public path receives the standard output and nothing else changes. */
  function RestoreStep(files: map<Path, Picture>, backup: Path, encode: Encoder): (e: Effect<Option<nat>>)
    ensures e.result.None? <==> backup !in files || files[backup].dims.None?
    ensures e.result.None? ==> e.files == files
    ensures e.result.Some? ==>
      e.result == Some(StandardOutput(encode, files[backup]).size) &&
      RestorePath(backup) in e.files && e.files[RestorePath(backup)] == StandardOutput(encode, files[backup])
    ensures OnlyWrites(files, e.files, RestorePath(backup), RestorePath(backup))
  {
    if backup !in files || files[backup].dims.None? then Effect(None, files)
    else
      var written := StandardOutput(encode, files[backup]);
      Effect(Some(written.size), files[RestorePath(backup) := written])
  }

  class Disk {
    var files: map<Path, Picture>

    constructor (files: map<Path, Picture>)
      ensures this.files == files
    {
      this.files := files;
    }

    /** compress-images: copy the original to its backup path, then read
        its metadata and overwrite it with the capped quality-90 JPEG.  A
        missing file fails before anything is written; an unreadable one
        fails after the backup copy. */
    method CompressStandard(file: Path, originalSize: nat, encode: Encoder) returns (outcome: Outcome)
      requires InPublic(file)
      modifies this
      ensures file !in old(files) ==> outcome.Failed? && files == old(files)
      ensures file in old(files) && old(files)[file].dims.None? ==>
        outcome.Failed? && files == old(files)[BackupPath(file) := old(files)[file]]
      ensures file in old(files) && old(files)[file].dims.Some? ==>
        var written := StandardOutput(encode, old(files)[file]);
        outcome == Compressed(originalSize, written.size) &&
        files == old(files)[BackupPath(file) := old(files)[file]][file := written]
      ensures file in old(files) ==> BackupPath(file) in files && files[BackupPath(file)] == old(files)[file]
      ensures Effect(outcome, files) == StandardStep(old(files), file, originalSize, encode)
    {
      BackupOfPublicFile(file);
      if file !in files {
        return Failed;
      }
      var original := files[file];
      files := files[BackupPath(file) := original];
      if original.dims.None? {
        return Failed;
      }
      var dims := original.dims.value;
      if dims.width > StandardMaxWidth {
        dims := Cap(dims, StandardMaxWidth);
      }
      var written := Reencoded(encode, original, dims, JpegOptions(StandardQuality, false));
      files := files[file := written];
      outcome := Compressed(originalSize, written.size);
    }

    /** compress-aggressive: cap at 1600 px, search the quality, overwrite.
        No backup is made.  `quality` is the one reported. */
    method CompressAggressive(file: Path, originalSize: nat, encode: Encoder) returns (outcome: Outcome, quality: nat)
      modifies this
      ensures file !in old(files) || old(files)[file].dims.None? ==> outcome.Failed? && files == old(files)
      ensures file in old(files) && old(files)[file].dims.Some? ==>
        var source := old(files)[file];
        var dims := Cap(source.dims.value, AggressiveMaxWidth);
        quality == Settle(AggressiveSizes(encode, source, dims), InitialQuality) &&
        outcome == Compressed(originalSize, encode(source, dims, JpegOptions(quality, true))) &&
        files == old(files)[file := Reencoded(encode, source, dims, JpegOptions(quality, true))]
      ensures Effect(outcome, files) == AggressiveStep(old(files), file, originalSize, encode)
    {
      quality := InitialQuality;
      if file !in files || files[file].dims.None? {
        return Failed, quality;
      }
      var source := files[file];
      var dims := Cap(source.dims.value, AggressiveMaxWidth);
      var bytes, encodings;
      quality, bytes, encodings := ChooseQuality(AggressiveSizes(encode, source, dims));
      files := files[file := Picture(bytes, Some(dims))];
      outcome := Compressed(originalSize, bytes);
    }

    /** restore-high-quality: re-encode a backup at 2400 px / quality 90 and
        write it to the matching public path; the backup is left alone.
        Returns the written size, or None when the backup is missing or
        unreadable (nothing is written then). */
    method RestoreAndCompress(backup: Path, encode: Encoder) returns (written: Option<nat>)
      requires InBackup(backup)
      modifies this
      ensures backup !in old(files) || old(files)[backup].dims.None? ==> written.None? && files == old(files)
      ensures backup in old(files) && old(files)[backup].dims.Some? ==>
        var output := StandardOutput(encode, old(files)[backup]);
        written == Some(output.size) && files == old(files)[RestorePath(backup) := output]
      ensures Effect(written, files) == RestoreStep(old(files), backup, encode)
    {
      if backup !in files || files[backup].dims.None? {
        return None;
      }
      var source := files[backup];
      var dims := source.dims.value;
      if dims.width > StandardMaxWidth {
        dims := Cap(dims, StandardMaxWidth);
      }
      var output := Reencoded(encode, source, dims, JpegOptions(StandardQuality, false));
      files := files[RestorePath(backup) := output];
      written := Some(output.size);
    }
  }

  /** Restoring right after a standard compression puts back exactly what
      the compression wrote, and keeps the backup; an unreadable original
      is left as it was. */
  method CompressThenRestore(d: Disk, file: Path, originalSize: nat, encode: Encoder)
    requires InPublic(file) && file in d.files
    modifies d
    ensures file in d.files && BackupPath(file) in d.files
    ensures d.files[BackupPath(file)] == old(d.files)[file]
    ensures old(d.files)[file].dims.Some? ==> d.files[file] == StandardOutput(encode, old(d.files)[file])
    ensures old(d.files)[file].dims.None? ==> d.files[file] == old(d.files)[file]
  {
    BackupOfPublicFile(file);
    var outcome := d.CompressStandard(file, originalSize, encode);
    var restored := d.RestoreAndCompress(BackupPath(file), encode);
  }

  /** The backup is copied on every run: compressing the same readable file
      twice leaves the first run's output, not the original, in the backup. */
  method CompressTwice(d: Disk, file: Path, originalSize: nat, encode: Encoder)
    requires InPublic(file) && file in d.files && d.files[file].dims.Some?
    modifies d
    ensures BackupPath(file) in d.files && d.files[BackupPath(file)] == StandardOutput(encode, old(d.files)[file])
  {
    var first := d.CompressStandard(file, originalSize, encode);
    var second := d.CompressStandard(file, originalSize, encode);
  }

  /** Sums over outcomes, left to right as the loops accumulate them. */
  function TotalOriginal(os: seq<Outcome>): nat {
    if os == [] then 0
    else TotalOriginal(os[..|os| - 1]) + (if os[|os| - 1].Compressed? then os[|os| - 1].original else 0)
  }

  function TotalCompressed(os: seq<Outcome>): nat {
    if os == [] then 0
    else TotalCompressed(os[..|os| - 1]) + (if os[|os| - 1].Compressed? then os[|os| - 1].compressed else 0)
  }

  function TotalWritten(rs: seq<Option<nat>>): nat {
    if rs == [] then 0
    else TotalWritten(rs[..|rs| - 1]) + (if rs[|rs| - 1].Some? then rs[|rs| - 1].value else 0)
  }

  /** The successes alone. */
  function Successes(os: seq<Outcome>): (r: seq<Outcome>)
    ensures forall o :: o in r ==> o.Compressed? && o in os
    ensures forall o :: o in os && o.Compressed? ==> o in r
  {
    if os == [] then [] else Successes(os[..|os| - 1]) + (if os[|os| - 1].Compressed? then [os[|os| - 1]] else [])
  }

  /** Failures contribute nothing: the totals are those of the successes. */
  lemma {:induction false} TotalsCountSuccessesOnly(os: seq<Outcome>)
    ensures TotalOriginal(os) == TotalOriginal(Successes(os))
    ensures TotalCompressed(os) == TotalCompressed(Successes(os))
  {
    if os != [] {
      var init := os[..|os| - 1];
      TotalsCountSuccessesOnly(init);
      var s := Successes(init);
      if os[|os| - 1].Compressed? {
        assert (s + [os[|os| - 1]])[..|s|] == s;
      } else {
        assert s + [] == s;
      }
    }
  }

  /** When no file grew, the total did not grow either. */
  lemma {:induction false} TotalsShrinkWhenEachDoes(os: seq<Outcome>)
    requires forall i :: 0 <= i < |os| && os[i].Compressed? ==> os[i].compressed <= os[i].original
    ensures TotalCompressed(os) <= TotalOriginal(os)
  {
    if os != [] {
      TotalsShrinkWhenEachDoes(os[..|os| - 1]);
    }
  }

  /** The images of a run go through the standard step one after the other,
      each on the store the previous one left. */
  function StandardRun(files: map<Path, Picture>, images: seq<ImageScan.FoundFile>, encode: Encoder): (r: Effect<seq<Outcome>>)
    requires forall i :: 0 <= i < |images| ==> InPublic(images[i].path)
    ensures |r.result| == |images|
  {
    if images == [] then Effect([], files)
    else
      var prev := StandardRun(files, images[..|images| - 1], encode);
      var last := images[|images| - 1];
      var step := StandardStep(prev.files, last.path, last.size, encode);
      Effect(prev.result + [step.result], step.files)
  }

  function AggressiveRun(files: map<Path, Picture>, images: seq<ImageScan.FoundFile>, encode: Encoder): (r: Effect<seq<Outcome>>)
    ensures |r.result| == |images|
  {
    if images == [] then Effect([], files)
    else
      var prev := AggressiveRun(files, images[..|images| - 1], encode);
      var last := images[|images| - 1];
      var step := AggressiveStep(prev.files, last.path, last.size, encode);
      Effect(prev.result + [step.result], step.files)
  }

  function RestoreRun(files: map<Path, Picture>, backups: seq<Path>, encode: Encoder): (r: Effect<seq<Option<nat>>>)
    ensures |r.result| == |backups|
  {
    if backups == [] then Effect([], files)
    else
      var prev := RestoreRun(files, backups[..|backups| - 1], encode);
      var step := RestoreStep(prev.files, backups[|backups| - 1], encode);
      Effect(prev.result + [step.result], step.files)
  }

  /** Distinct image paths, none of them inside the backup tree. */
  predicate SeparateImages(images: seq<ImageScan.FoundFile>) {
    (forall i :: 0 <= i < |images| ==> InPublic(images[i].path) && !InBackup(images[i].path)) &&
    (forall i, j :: 0 <= i < j < |images| ==> images[i].path != images[j].path)
  }

  /** Every image present and readable in the store. */
  predicate ImagesReadable(files: map<Path, Picture>, images: seq<ImageScan.FoundFile>) {
    forall i :: 0 <= i < |images| ==> images[i].path in files && files[images[i].path].dims.Some?
  }

  /** Every backup present and readable in the store. */
  predicate AllReadable(files: map<Path, Picture>, paths: seq<Path>) {
    forall i :: 0 <= i < |paths| ==> paths[i] in files && files[paths[i]].dims.Some?
  }

  /** Two different public files outside the backup tree: neither is the
      other's backup, and their backups differ. */
  lemma BackupsApart(a: Path, b: Path)
    requires InPublic(a) && InPublic(b) && !InBackup(a) && !InBackup(b) && a != b
    ensures a != BackupPath(b) && b != BackupPath(a) && BackupPath(a) != BackupPath(b)
  {
    BackupOfPublicFile(a);
    BackupOfPublicFile(b);
  }

  /** A path that a compress-images run over `images` neither compresses
      nor backs up into. */
  ghost predicate Untouched(p: Path, images: seq<ImageScan.FoundFile>) {
    forall i :: 0 <= i < |images| ==> p != images[i].path && p != BackupPath(images[i].path)
  }

  /** The state a compress-images run leaves for one separate, readable image. */
  ghost predicate Compressed1(files: map<Path, Picture>, r: Effect<seq<Outcome>>, images: seq<ImageScan.FoundFile>, i: nat, encode: Encoder)
    requires i < |images| && i < |r.result| && images[i].path in files && files[images[i].path].dims.Some?
  {
    var path := images[i].path;
    var out := StandardOutput(encode, files[path]);
    r.result[i] == Compressed(images[i].size, out.size) &&
    path in r.files && r.files[path] == out &&
    BackupPath(path) in r.files && r.files[BackupPath(path)] == files[path]
  }

  /** A compress-images run writes only the images and their backups. */
  lemma {:induction false} StandardRunFrame(files: map<Path, Picture>, images: seq<ImageScan.FoundFile>, encode: Encoder)
    requires forall i :: 0 <= i < |images| ==> InPublic(images[i].path)
    ensures forall p :: Untouched(p, images) ==>
      var r := StandardRun(files, images, encode);
      (p in r.files <==> p in files) && (p in files ==> r.files[p] == files[p])
  {
    if images != [] {
      var n := |images| - 1;
      var init := images[..n];
      assert forall i :: 0 <= i < n ==> init[i] == images[i];
      StandardRunFrame(files, init, encode);
      forall p | Untouched(p, images)
        ensures Untouched(p, init)
      {
      }
    }
  }

  /** A compress-images run over separate, readable images compresses every
      one of them: each outcome reports its size and the standard output,
      each file holds that output, and its backup holds the original
      (StandardRunFrame: every other file is left alone). */
  lemma {:induction false} StandardRunCompressesAll(files: map<Path, Picture>, images: seq<ImageScan.FoundFile>, encode: Encoder)
    requires SeparateImages(images) && ImagesReadable(files, images)
    ensures forall i :: 0 <= i < |images| ==> Compressed1(files, StandardRun(files, images, encode), images, i, encode)
  {
    if images != [] {
      var n := |images| - 1;
      var init := images[..n];
      var path := images[n].path;
      assert forall i :: 0 <= i < n ==> init[i] == images[i];
      StandardRunCompressesAll(files, init, encode);
      StandardRunFrame(files, init, encode);
      var prev := StandardRun(files, init, encode);
      var step := StandardStep(prev.files, path, images[n].size, encode);
      var r := StandardRun(files, images, encode);
      assert r == Effect(prev.result + [step.result], step.files);
      forall i | 0 <= i < n
        ensures path != images[i].path && path != BackupPath(images[i].path)
        ensures images[i].path != BackupPath(path) && BackupPath(images[i].path) != BackupPath(path)
      {
        BackupsApart(images[i].path, path);
      }
      assert Untouched(path, init);
      assert path in prev.files && prev.files[path] == files[path];
      assert OnlyWrites(prev.files, step.files, path, BackupPath(path));
      StandardStepOnReadable(prev.files, path, images[n].size, encode);
      assert Compressed1(files, r, images, n, encode);
      forall i | 0 <= i < n
        ensures Compressed1(files, r, images, i, encode)
      {
        var q := images[i].path;
        assert Compressed1(files, prev, init, i, encode);
        KeptAcrossStep(prev.files, step.files, path, BackupPath(path), q);
        KeptAcrossStep(prev.files, step.files, path, BackupPath(path), BackupPath(q));
        assert r.result[i] == prev.result[i];
      }
    }
  }

  /** The standard step on a present, readable file succeeds. */
  lemma StandardStepOnReadable(before: map<Path, Picture>, file: Path, size: nat, encode: Encoder)
    requires InPublic(file) && file in before && before[file].dims.Some?
    ensures var e := StandardStep(before, file, size, encode);
      e.result == Compressed(size, StandardOutput(encode, before[file]).size) &&
      file in e.files && e.files[file] == StandardOutput(encode, before[file]) &&
      BackupPath(file) in e.files && e.files[BackupPath(file)] == before[file]
  {
  }

  /** A path other than the two written keeps its content. */
  lemma KeptAcrossStep(before: map<Path, Picture>, after: map<Path, Picture>, a: Path, b: Path, q: Path)
    requires OnlyWrites(before, after, a, b) && q != a && q != b && q in before
    ensures q in after && after[q] == before[q]
  {
  }

  /** A path that a compress-aggressive run over `images` does not write. */
  ghost predicate NotAnImage(p: Path, images: seq<ImageScan.FoundFile>) {
    forall i :: 0 <= i < |images| ==> p != images[i].path
  }

  /** The state a compress-aggressive run leaves for one readable image. */
  ghost predicate Squeezed1(files: map<Path, Picture>, r: Effect<seq<Outcome>>, images: seq<ImageScan.FoundFile>, i: nat, encode: Encoder)
    requires i < |images| && i < |r.result| && images[i].path in files && files[images[i].path].dims.Some?
  {
    var out := AggressiveOutput(encode, files[images[i].path]);
    r.result[i] == Compressed(images[i].size, out.size) && images[i].path in r.files && r.files[images[i].path] == out
  }

  /** A compress-aggressive run writes only the images. */
  lemma {:induction false} AggressiveRunFrame(files: map<Path, Picture>, images: seq<ImageScan.FoundFile>, encode: Encoder)
    ensures forall p :: NotAnImage(p, images) ==>
      var r := AggressiveRun(files, images, encode);
      (p in r.files <==> p in files) && (p in files ==> r.files[p] == files[p])
  {
    if images != [] {
      var n := |images| - 1;
      var init := images[..n];
      assert forall i :: 0 <= i < n ==> init[i] == images[i];
      AggressiveRunFrame(files, init, encode);
      forall p | NotAnImage(p, images)
        ensures NotAnImage(p, init)
      {
      }
    }
  }

  /** A compress-aggressive run over distinct, readable images overwrites
      each of them with its aggressive output (AggressiveRunFrame: nothing
      else is touched). */
  lemma {:induction false} AggressiveRunCompressesAll(files: map<Path, Picture>, images: seq<ImageScan.FoundFile>, encode: Encoder)
    requires forall i, j :: 0 <= i < j < |images| ==> images[i].path != images[j].path
    requires ImagesReadable(files, images)
    ensures forall i :: 0 <= i < |images| ==> Squeezed1(files, AggressiveRun(files, images, encode), images, i, encode)
  {
    if images != [] {
      var n := |images| - 1;
      var init := images[..n];
      var path := images[n].path;
      assert forall i :: 0 <= i < n ==> init[i] == images[i];
      AggressiveRunCompressesAll(files, init, encode);
      AggressiveRunFrame(files, init, encode);
      var prev := AggressiveRun(files, init, encode);
      var step := AggressiveStep(prev.files, path, images[n].size, encode);
      var r := AggressiveRun(files, images, encode);
      assert r == Effect(prev.result + [step.result], step.files);
      assert NotAnImage(path, init);
      assert path in prev.files && prev.files[path] == files[path];
      assert OnlyWrites(prev.files, step.files, path, path);
      assert Squeezed1(files, r, images, n, encode);
      forall i | 0 <= i < n
        ensures Squeezed1(files, r, images, i, encode)
      {
        assert Squeezed1(files, prev, init, i, encode);
        KeptAcrossStep(prev.files, step.files, path, path, images[i].path);
        assert r.result[i] == prev.result[i];
      }
    }
  }

  /** Distinct backups are restored to distinct public paths. */
  lemma RestoreTargetsDistinct(b1: Path, b2: Path)
    requires InBackup(b1) && InBackup(b2) && b1 != b2
    ensures RestorePath(b1) != RestorePath(b2)
  {
    RestoreOfBackupFile(b1);
    RestoreOfBackupFile(b2);
  }

  /** A path that a restore run over `backups` does not write. */
  ghost predicate NotRestored(p: Path, backups: seq<Path>) {
    forall i :: 0 <= i < |backups| ==> p != RestorePath(backups[i])
  }

  /** The state a restore run leaves for one readable backup. */
  ghost predicate Restored1(files: map<Path, Picture>, r: Effect<seq<Option<nat>>>, backups: seq<Path>, i: nat, encode: Encoder)
    requires i < |backups| && i < |r.result| && backups[i] in files && files[backups[i]].dims.Some?
  {
    var out := StandardOutput(encode, files[backups[i]]);
    r.result[i] == Some(out.size) && RestorePath(backups[i]) in r.files && r.files[RestorePath(backups[i])] == out
  }

  /** A restore run writes only the restore targets. */
  lemma {:induction false} RestoreRunFrame(files: map<Path, Picture>, backups: seq<Path>, encode: Encoder)
    ensures forall p :: NotRestored(p, backups) ==>
      var r := RestoreRun(files, backups, encode);
      (p in r.files <==> p in files) && (p in files ==> r.files[p] == files[p])
  {
    if backups != [] {
      var n := |backups| - 1;
      var init := backups[..n];
      RestoreRunFrame(files, init, encode);
      forall p | NotRestored(p, backups)
        ensures NotRestored(p, init)
      {
      }
    }
  }

  /** A restore run over distinct, readable backups, none of which is the
      restore target of another, writes each target with the standard
      output of its backup (RestoreRunFrame: nothing else changes, backups
      included). */
  lemma {:induction false} RestoreRunRestoresAll(files: map<Path, Picture>, backups: seq<Path>, encode: Encoder)
    requires forall i :: 0 <= i < |backups| ==> InBackup(backups[i])
    requires forall i, j :: 0 <= i < j < |backups| ==> backups[i] != backups[j]
    requires forall i, j :: 0 <= i < |backups| && 0 <= j < |backups| ==> RestorePath(backups[i]) != backups[j]
    requires AllReadable(files, backups)
    ensures forall i :: 0 <= i < |backups| ==> Restored1(files, RestoreRun(files, backups, encode), backups, i, encode)
  {
    if backups != [] {
      var n := |backups| - 1;
      var init := backups[..n];
      var b := backups[n];
      assert forall i :: 0 <= i < n ==> init[i] == backups[i];
      RestoreRunRestoresAll(files, init, encode);
      RestoreRunFrame(files, init, encode);
      var prev := RestoreRun(files, init, encode);
      var step := RestoreStep(prev.files, b, encode);
      var r := RestoreRun(files, backups, encode);
      assert r == Effect(prev.result + [step.result], step.files);
      assert NotRestored(b, init);
      assert b in prev.files && prev.files[b] == files[b];
      assert OnlyWrites(prev.files, step.files, RestorePath(b), RestorePath(b));
      assert Restored1(files, r, backups, n, encode);
      forall i | 0 <= i < n
        ensures Restored1(files, r, backups, i, encode)
      {
        RestoreTargetsDistinct(backups[i], b);
        assert Restored1(files, prev, init, i, encode);
        KeptAcrossStep(prev.files, step.files, RestorePath(b), RestorePath(b), RestorePath(backups[i]));
        assert r.result[i] == prev.result[i];
      }
    }
  }

  /** `main` of compress-images: compress every found image, in order,
      catching failures, and add up the sizes of the successful ones. */
  method CompressAllStandard(d: Disk, images: seq<ImageScan.FoundFile>, encode: Encoder)
    returns (outcomes: seq<Outcome>, totalOriginal: nat, totalCompressed: nat)
    requires forall i :: 0 <= i < |images| ==> InPublic(images[i].path)
    modifies d
    ensures Effect(outcomes, d.files) == StandardRun(old(d.files), images, encode)
    ensures forall i :: 0 <= i < |images| && outcomes[i].Compressed? ==> outcomes[i].original == images[i].size
    ensures totalOriginal == TotalOriginal(outcomes) && totalCompressed == TotalCompressed(outcomes)
  {
    outcomes := [];
    totalOriginal := 0;
    totalCompressed := 0;
    for i := 0 to |images|
      invariant Effect(outcomes, d.files) == StandardRun(old(d.files), images[..i], encode)
      invariant forall j :: 0 <= j < i && outcomes[j].Compressed? ==> outcomes[j].original == images[j].size
      invariant totalOriginal == TotalOriginal(outcomes) && totalCompressed == TotalCompressed(outcomes)
    {
      assert images[..i + 1][..i] == images[..i];
      var result := d.CompressStandard(images[i].path, images[i].size, encode);
      if result.Compressed? {
        totalOriginal := totalOriginal + result.original;
        totalCompressed := totalCompressed + result.compressed;
      }
      assert (outcomes + [result])[..i] == outcomes;
      outcomes := outcomes + [result];
    }
    assert images[..|images|] == images;
  }

  /** `main` of compress-aggressive: the same loop over the aggressive step. */
  method CompressAllAggressive(d: Disk, images: seq<ImageScan.FoundFile>, encode: Encoder)
    returns (outcomes: seq<Outcome>, totalOriginal: nat, totalCompressed: nat)
    modifies d
    ensures Effect(outcomes, d.files) == AggressiveRun(old(d.files), images, encode)
    ensures forall i :: 0 <= i < |images| && outcomes[i].Compressed? ==> outcomes[i].original == images[i].size
    ensures totalOriginal == TotalOriginal(outcomes) && totalCompressed == TotalCompressed(outcomes)
  {
    outcomes := [];
    totalOriginal := 0;
    totalCompressed := 0;
    for i := 0 to |images|
      invariant Effect(outcomes, d.files) == AggressiveRun(old(d.files), images[..i], encode)
      invariant forall j :: 0 <= j < i && outcomes[j].Compressed? ==> outcomes[j].original == images[j].size
      invariant totalOriginal == TotalOriginal(outcomes) && totalCompressed == TotalCompressed(outcomes)
    {
      assert images[..i + 1][..i] == images[..i];
      var result, quality := d.CompressAggressive(images[i].path, images[i].size, encode);
      if result.Compressed? {
        totalOriginal := totalOriginal + result.original;
        totalCompressed := totalCompressed + result.compressed;
      }
      assert (outcomes + [result])[..i] == outcomes;
      outcomes := outcomes + [result];
    }
    assert images[..|images|] == images;
  }

  /** `main` of restore-high-quality: restore every backup file, in order,
      and add up the written sizes of the successful ones. */
  method RestoreAll(d: Disk, backups: seq<Path>, encode: Encoder)
    returns (results: seq<Option<nat>>, totalSize: nat)
    requires forall i :: 0 <= i < |backups| ==> InBackup(backups[i])
    modifies d
    ensures Effect(results, d.files) == RestoreRun(old(d.files), backups, encode)
    ensures totalSize == TotalWritten(results)
  {
    results := [];
    totalSize := 0;
    for i := 0 to |backups|
      invariant Effect(results, d.files) == RestoreRun(old(d.files), backups[..i], encode)
      invariant totalSize == TotalWritten(results)
    {
      assert backups[..i + 1][..i] == backups[..i];
      var result := d.RestoreAndCompress(backups[i], encode);
      if result.Some? {
        totalSize := totalSize + result.value;
      }
      assert (results + [result])[..i] == results;
      results := results + [result];
    }
    assert backups[..|backups|] == backups;
  }
}
