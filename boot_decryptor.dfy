/**
  The decryption pass over a Spring Boot jar: it reads the source entries in
  order, writes each one that is kept to the jar writer while collecting the
  index of transformed names, and then appends the marker directory and the
  index file. Proved to write exactly what BootRewrite.Rewrite describes.
 */
module BootDecryptor {

  import opened Wrappers
  import opened JavaStrings
  import opened Archive
  import opened Manifests
  import opened OrderedSets
  import opened BootRewrite
  import opened BootRewriteProofs

  /**
    Decrypts `src` into `zos`. The result is None on success and the error
    otherwise; in both cases `zos` holds, after what it held before, exactly
    the entries the pass gets to write.
   */
  method Decrypt(c: Config, src: seq<Entry>, markerTime: int, indexTime: int, zos: JarWriter) returns (failure: Option<Error>)
    modifies zos
    ensures zos.entries == old(zos.entries) + Rewrite(c, src, markerTime, indexTime).written
    ensures failure == Rewrite(c, src, markerTime, indexTime).failure
  {
    ghost var before := zos.entries;
    var indexes: seq<JString> := [];
    var manifest: Option<Manifest> := None;
    ghost var pass := Pass([], [], None, None);
    var i := 0;
    while i < |src|
      invariant 0 <= i <= |src|
      invariant pass == Scan(c, src[..i])
      invariant pass.failure == None && pass.indexes == indexes && pass.manifest == manifest
      invariant zos.entries == before + pass.written
    {
      var entry := src[i];
      ScanOneMore(c, src, i);
      var nextIndexes, nextManifest, err := CopyEntry(c, entry, zos, indexes, manifest, before, pass);
      pass := Absorb(c, pass, entry);
      if err.Some? {
        RewriteAfterFailure(c, src, i + 1, markerTime, indexTime);
        return err;
      }
      indexes, manifest := nextIndexes, nextManifest;
      i := i + 1;
    }
    assert src[..i] == src;
    failure := AppendIndex(c, indexes, manifest, markerTime, indexTime, zos, pass);
    RewriteAfterSuccess(c, src, markerTime, indexTime);
    assert zos.entries == before + (pass.written + Trailer(c, pass, markerTime, indexTime).written);
  }

  /**
    Copies one source entry to `zos` as the pass does: a reserved entry is
    dropped, a directory is written bare, and the other kinds go to the
    methods below. Selected manifest and ordinary names join the index.
   */
  method CopyEntry(c: Config, entry: Entry, zos: JarWriter, indexes: seq<JString>, manifest: Option<Manifest>,
                   ghost preceding: seq<Entry>, ghost pass: Pass)
    returns (newIndexes: seq<JString>, newManifest: Option<Manifest>, failure: Option<Error>)
    requires pass == Pass(pass.written, indexes, manifest, None)
    requires zos.entries == preceding + pass.written
    modifies zos
    ensures zos.entries == preceding + Absorb(c, pass, entry).written
    ensures failure == Absorb(c, pass, entry).failure
    ensures failure.None? ==> Absorb(c, pass, entry).indexes == newIndexes && Absorb(c, pass, entry).manifest == newManifest
  {
    newIndexes, newManifest, failure := indexes, manifest, None;
    var name := entry.name;
    if IsReserved(c.names, name) {
      return;
    }
    if entry.IsDirectory() {
      zos.PutArchiveEntry(NewEntry(name, entry.time));
    } else if EndsWith(name, JAR_SUFFIX) {
      failure := CopyNestedJar(c, entry, zos);
    } else if name == MANIFEST_NAME {
      var restored;
      newIndexes, restored, failure := CopyManifest(c, entry, zos, indexes);
      if failure.None? {
        newManifest := Some(restored);
      }
    } else {
      newIndexes, failure := CopyOrdinary(c, entry, zos, indexes);
    }
    assert zos.entries == preceding + (pass.written + Emitted(Step(c, entry)));
  }

  /**
    A nested jar is read whole, decrypted by the whole-jar decryptor when
    selected, and written STORED with the size and CRC of the result.
   */
  method CopyNestedJar(c: Config, entry: Entry, zos: JarWriter) returns (failure: Option<Error>)
    requires Classify(c.names, entry) == NestedJar
    modifies zos
    ensures zos.entries == old(zos.entries) + Emitted(Step(c, entry))
    ensures failure == FailureOf(Step(c, entry))
  {
    var filtered := c.filter(entry);
    var plain := if filtered then c.nested(entry.data) else Some(entry.data);
    if plain.None? {
      return Some(NestedDecryptFailed(entry.name));
    }
    var bytes := plain.value;
    var jar := NewEntry(entry.name, entry.time).(compression := Stored, size := Some(|bytes|), crc := Some(c.crc32(bytes)));
    zos.PutArchiveEntry(jar);
    zos.Write(bytes);
    AppendAfterPut(old(zos.entries), jar, bytes);
    assert jar.(data := jar.data + bytes) == jar.(data := bytes);
    return None;
  }

  /**
    The manifest is decrypted when selected, always parsed, and written back
    with its main class restored; its name joins the index when selected.
   */
  method CopyManifest(c: Config, entry: Entry, zos: JarWriter, indexes: seq<JString>)
    returns (newIndexes: seq<JString>, restored: Manifest, failure: Option<Error>)
    requires Classify(c.names, entry) == ManifestFile
    modifies zos
    ensures zos.entries == old(zos.entries) + Emitted(Step(c, entry))
    ensures failure == FailureOf(Step(c, entry))
    ensures Step(c, entry).Emit? ==>
      && newIndexes == (if Step(c, entry).indexed then Add(indexes, entry.name) else indexes)
      && Step(c, entry).manifest == Some(restored)
  {
    newIndexes := indexes;
    restored := Manifest(map[], map[]);
    var filtered := c.filter(entry);
    if filtered {
      newIndexes := Add(indexes, entry.name);
    }
    var plain := if filtered then c.decrypt(entry.data) else Some(entry.data);
    if plain.None? {
      return newIndexes, restored, Some(DecryptFailed(entry.name));
    }
    var parsed := c.parse(plain.value);
    if parsed.None? {
      return newIndexes, restored, Some(ManifestUnreadable(entry.name));
    }
    restored := RestoreMainClass(parsed.value);
    var header := NewEntry(entry.name, entry.time);
    zos.PutArchiveEntry(header);
    zos.Write(c.serialize(restored));
    AppendAfterPut(old(zos.entries), header, c.serialize(restored));
    assert header.(data := header.data + c.serialize(restored)) == header.(data := c.serialize(restored));
    failure := None;
  }

  /**
    Any other entry: its header is written first, then its bytes, decrypted
    when selected and copied otherwise; its name joins the index when selected.
   */
  method CopyOrdinary(c: Config, entry: Entry, zos: JarWriter, indexes: seq<JString>)
    returns (newIndexes: seq<JString>, failure: Option<Error>)
    requires Classify(c.names, entry) == Ordinary
    modifies zos
    ensures zos.entries == old(zos.entries) + Emitted(Step(c, entry))
    ensures failure == FailureOf(Step(c, entry))
    ensures Step(c, entry).Emit? ==> newIndexes == if Step(c, entry).indexed then Add(indexes, entry.name) else indexes
  {
    var header := NewEntry(entry.name, entry.time);
    zos.PutArchiveEntry(header);
    var filtered := c.filter(entry);
    newIndexes := if filtered then Add(indexes, entry.name) else indexes;
    var plain := if filtered then c.decrypt(entry.data) else Some(entry.data);
    if plain.None? {
      return newIndexes, Some(DecryptFailed(entry.name));
    }
    zos.Write(plain.value);
    AppendAfterPut(old(zos.entries), header, plain.value);
    assert header.(data := header.data + plain.value) == header.(data := plain.value);
    failure := None;
  }

  /**
    After the last source entry: when the index is not empty, writes the
    marker directory and the index file under the classes root of the
    manifest read last.
   */
  method AppendIndex(c: Config, indexes: seq<JString>, manifest: Option<Manifest>, markerTime: int, indexTime: int,
                     zos: JarWriter, ghost pass: Pass)
    returns (failure: Option<Error>)
    requires pass == Pass(pass.written, indexes, manifest, None)
    modifies zos
    ensures zos.entries == old(zos.entries) + Trailer(c, pass, markerTime, indexTime).written
    ensures failure == Trailer(c, pass, markerTime, indexTime).failure
  {
    if indexes == [] {
      return None;
    }
    ghost var before := zos.entries;
    var classpath := if manifest.Some? && SPRING_BOOT_CLASSES in manifest.value.main
      then Some(manifest.value.main[SPRING_BOOT_CLASSES]) else None;
    var root := if classpath.Some? then classpath.value else [];
    assert root == ClassesRoot(manifest);
    var marker := NewEntry(root + c.names.infDir, markerTime);
    var indexFile := NewEntry(root + c.names.infDir + c.names.decIdxFile, indexTime);
    zos.PutArchiveEntry(marker);
    zos.PutArchiveEntry(indexFile);
    failure := WriteIndex(c, indexes, |root|, zos);
    ghost var lines := IndexData(c, indexes, |root|);
    AppendAfterPut(before + [marker], indexFile, lines.bytes);
    assert indexFile.(data := indexFile.data + lines.bytes) == indexFile.(data := lines.bytes);
    assert zos.entries == before + [marker, indexFile.(data := lines.bytes)];
  }

  /**
    Writes the index lines into the open index file entry: each name without
    its first `idx` code units, then the line terminator. A name shorter than
    `idx` stops the writing with an error.
   */
  method WriteIndex(c: Config, indexes: seq<JString>, idx: nat, zos: JarWriter) returns (failure: Option<Error>)
    requires zos.entries != [] && zos.entries[|zos.entries| - 1].data == []
    modifies zos
    ensures zos.entries == AppendToLast(old(zos.entries), IndexData(c, indexes, idx).bytes)
    ensures failure == if IndexData(c, indexes, idx).tooShort.Some?
      then Some(IndexNameTooShort(IndexData(c, indexes, idx).tooShort.value)) else None
  {
    ghost var preceding := old(zos.entries)[..|zos.entries| - 1];
    ghost var header := old(zos.entries)[|zos.entries| - 1];
    assert zos.entries == preceding + [header.(data := IndexData(c, indexes[..0], idx).bytes)] by {
      assert indexes[..0] == [];
    }
    for k := 0 to |indexes|
      invariant IndexData(c, indexes[..k], idx).tooShort == None
      invariant zos.entries == preceding + [header.(data := IndexData(c, indexes[..k], idx).bytes)]
    {
      var index := indexes[k];
      assert indexes[..k + 1][..k] == indexes[..k] && indexes[..k + 1][k] == index;
      if idx > |index| {
        IndexDataFailureIsFinal(c, indexes, k + 1, idx);
        assert header.(data := header.data + IndexData(c, indexes, idx).bytes) == header.(data := IndexData(c, indexes, idx).bytes);
        return Some(IndexNameTooShort(index));
      }
      ghost var sofar := IndexData(c, indexes[..k], idx).bytes;
      zos.Write(c.encode(index[idx..]));
      AppendAfterPut(preceding, header.(data := sofar), c.encode(index[idx..]));
      zos.Write(c.encode(c.names.crlf));
      AppendAfterPut(preceding, header.(data := sofar + c.encode(index[idx..])), c.encode(c.names.crlf));
    }
    assert indexes[..|indexes|] == indexes;
    assert header.(data := header.data + IndexData(c, indexes, idx).bytes) == header.(data := IndexData(c, indexes, idx).bytes);
    return None;
  }
}
