# XBootDecryptor: the decryption pass over a Spring Boot jar

This project models the archive rewrite pass of xjar's `XBootDecryptor`, in
`decrypt(XKey, InputStream, OutputStream)`. The pass reads the entries of an
encrypted Spring Boot jar in order. For each entry it does one of these:

- drops the entry if it is a reserved marker or index entry;
- writes a directory back as a bare entry;
- writes a nested jar back STORED, with that jar's size and CRC;
- parses the manifest, restores `Main-Class` from `Origin-Main-Class`, and writes it back;
- decrypts or copies any other entry.

Along the way it records the names of the entries the filter selects, in an
insertion-ordered set with no duplicates (`LinkedHashSet`). If that index is
not empty, the pass then appends a marker directory and an index file, both
placed under the classes root (`Spring-Boot-Classes`) of the last manifest
read.

The project has these modules:

- `JavaStrings` models a Java string as a sequence of UTF-16 code units (`JString`). Entry names, attribute names and values, and the reserved names are all `JString`s. So `length()`, `substring`, `startsWith`, `endsWith` and `equals` count and compare code units, as Java does. A character outside the Basic Multilingual Plane is two units, and `substring` may split it.
- `Archive` holds the entry record, the compression method and the jar writer. The writer is a class with a sequence of entries. `PutArchiveEntry` appends a header, and `Write` appends bytes to the content of the entry opened last.
- `Manifests` models the manifest as its main attribute map and its named sections. It defines the main-class restoration and the classes root.
- `OrderedSets` models the `LinkedHashSet` as a duplicate-free sequence.
- `BootRewrite` gives the pure specification of the pass:
  - `Classify` tests the cases in the same order as the source.
  - `Step` says what one entry yields.
  - `Scan` is a left fold of `Step` over the source.
  - `IndexData` gives the index-file bytes.
  - `Trailer` gives the two appended entries, and `Rewrite` gives the whole outcome.
- `BootRewriteProofs` proves the properties of the pass, stated over that specification.
- `BootDecryptor` is the imperative pass. `Decrypt` has a `while` loop over the source entries, and `WriteIndex` has the `for` loop over the index. `Decrypt` updates the index, the manifest variable and the writer; `WriteIndex` changes only the writer. `Decrypt` is proved to leave in the writer exactly `Rewrite(...).written`, after whatever the writer already held. It returns exactly `Rewrite(...).failure`. The source opens a fresh writer (line 70), whose entries are empty as after `JarWriter`'s constructor; `Decrypt` allows any earlier entries, of which that is the case with none.

Everything the pass calls but does not define is a field of `Config`:

- the filter decision;
- the entry decryptor under the caller's key;
- the whole-jar decryptor for nested jars (`XJarDecryptor` with an always-true filter);
- CRC-32;
- manifest parsing and serialization;
- `String.getBytes`.

If a filter rejects an entry, that entry goes through the stock no-op decryptor, which is the identity. The reserved names (`XJAR_INF_DIR`, `XJAR_SRC_DIR`, `XENC_IDX_FILE`, `XDEC_IDX_FILE`, `CRLF`) come from `XConstants`, which is not part of this model. They are therefore the parameters `ReservedNames`.

A call that throws in Java is modelled as an error result, and it ends the pass. These are:

- a decryptor that rejects its input;
- manifest bytes that do not parse;
- `substring` on an index name shorter than the classes root.

On such an error, the writer holds the entries the Java code had put before the exception. For an ordinary entry, that includes the header put before its content is decrypted, but not any bytes a streaming decryptor may have passed on before failing (see "## Left out"). For the index, it includes the marker and the index header with the lines written so far.

Where the code and a plain description of the tool differ, the model follows the code:

- the manifest is parsed and its main class restored whether or not the filter selects it;
- selected nested jars are decrypted but never added to the index;
- nested jars go through `XJarDecryptor`, not a recursive `XBootDecryptor`;
- the index is a set, so two selected entries with the same name give one index line;
- `substring(idx)` strips the first `idx` UTF-16 code units, whether or not they are the classes root.

## Model

| member | source | states |
|---|---|---|
| BootDecryptor.Decrypt | src/main/java/io/xjar/XBootDecryptor.java:64-160 | the writer ends with its old entries followed by exactly `Rewrite(c, src, ...).written`, and the result is exactly that outcome's failure (None on success) |
| BootDecryptor.CopyEntry | src/main/java/io/xjar/XBootDecryptor.java:77-134 | copying one entry appends exactly what absorbing its `Step` appends; it returns the same failure, and on success the same index and manifest |
| BootDecryptor.CopyNestedJar | src/main/java/io/xjar/XBootDecryptor.java:89-102 | a nested jar appends exactly the entry `Step` emits (or nothing when the decryptor rejects it), with the matching failure |
| BootDecryptor.CopyManifest | src/main/java/io/xjar/XBootDecryptor.java:103-122 | the manifest entry appends what `Step` emits; when it succeeds, the index gains its name iff selected and the restored manifest is returned |
| BootDecryptor.CopyOrdinary | src/main/java/io/xjar/XBootDecryptor.java:123-133 | an ordinary entry appends its header and then its (decrypted or copied) bytes, or only the header when decryption fails; the index gains its name iff selected |
| BootDecryptor.AppendIndex | src/main/java/io/xjar/XBootDecryptor.java:137-153 | after the loop, the writer gains exactly the `Trailer` entries: nothing for an empty index, and otherwise the marker and the index file under the classes root, with the matching failure |
| BootDecryptor.WriteIndex | src/main/java/io/xjar/XBootDecryptor.java:147-151 | the open index entry's content grows by exactly `IndexData(indexes, idx).bytes`; it fails with the first name shorter than `idx` UTF-16 code units |
| Archive.JarWriter.constructor | src/main/java/io/xjar/XBootDecryptor.java:70 | a freshly opened jar writer holds no entries |
| Archive.JarWriter.PutArchiveEntry | src/main/java/io/xjar/XBootDecryptor.java:88 | putting a header appends it as a new entry and changes no earlier entry |
| Archive.JarWriter.Write | src/main/java/io/xjar/XBootDecryptor.java:149-150 | written bytes extend the content of the entry opened last and change nothing else |
| Archive.AppendToLast | src/main/java/io/xjar/XBootDecryptor.java:102 | writing keeps the number of entries and every entry but the last, and appends the bytes to the last entry's content |
| BootRewrite.Step | src/main/java/io/xjar/XBootDecryptor.java:77-133 | an entry is skipped iff its name is reserved; an emitted entry keeps the source name and time, joins the index iff selected, and yields a manifest iff it is the manifest entry; only nested jars, the manifest and ordinary entries can fail |
| Archive.Entry.IsDirectory | src/main/java/io/xjar/XBootDecryptor.java:85 | an entry is a directory exactly when its name ends in '/' |
| BootRewrite.IsReserved | src/main/java/io/xjar/XBootDecryptor.java:78-84 | a name is reserved when it starts with the marker or source-retention directory, or ends with the marker directory followed by the encryption or decryption index file name |
| BootRewrite.Classify | src/main/java/io/xjar/XBootDecryptor.java:78-123 | the kind of an entry, tested in the source's order: reserved, directory, `.jar` suffix, exact manifest name, and otherwise ordinary |
| BootRewrite.ManifestOf | src/main/java/io/xjar/XBootDecryptor.java:106-118 | the manifest entry's bytes, decrypted when selected, parsed, with the main class restored; a rejected decryption or unparsable bytes is an error |
| JavaStrings.StartsWith | src/main/java/io/xjar/XBootDecryptor.java:78-79 | Java's `startsWith`: the string begins with the prefix, compared code unit by code unit |
| JavaStrings.EndsWith | src/main/java/io/xjar/XBootDecryptor.java:80-81 | Java's `endsWith`: the last code units of the string are exactly the suffix (also the directory test at line 85 and the `.jar` test at line 89) |
| Archive.NewEntry | src/main/java/io/xjar/XBootDecryptor.java:86-87 | `new JarArchiveEntry(name)` followed by `setTime`: the given name and time, no method, size or CRC set, and no content (also lines 119-120, 124-125, 139-140, 144-145) |
| BootRewrite.Selected | src/main/java/io/xjar/XBootDecryptor.java:104-105 | an entry joins the index when it is the manifest or an ordinary entry and the filter accepts it (also line 127-128; a nested jar never joins it, lines 89-102) |
| BootRewrite.Plain | src/main/java/io/xjar/XBootDecryptor.java:129-131 | the content of a manifest or ordinary entry: the decryptor's output when the filter accepts it, the unchanged bytes (no-op decryptor) otherwise (also line 106) |
| BootRewrite.NestedPlain | src/main/java/io/xjar/XBootDecryptor.java:92-94 | the content of a nested jar: the whole-jar decryptor's output when the filter accepts it, the unchanged bytes otherwise |
| BootRewrite.Absorb | src/main/java/io/xjar/XBootDecryptor.java:77-134 | one loop iteration: a pass that already failed is left alone; otherwise the entry's output is appended, its name is added to the index when selected (lines 105, 128), a successfully read manifest replaces the last one (line 112), and a failing entry ends the pass |
| BootRewrite.Scan | src/main/java/io/xjar/XBootDecryptor.java:77-135 | the written entries, index, last manifest and failure after reading the entries in order; once an entry has failed, later entries change nothing |
| BootRewrite.IndexData | src/main/java/io/xjar/XBootDecryptor.java:147-151 | the index file bytes: per index name in order, the name from code unit `n` on and then the line terminator; it stops at the first name shorter than `n` code units |
| BootRewrite.Trailer | src/main/java/io/xjar/XBootDecryptor.java:137-153 | nothing for an empty index; otherwise the marker directory and the index file under the classes root, with the index error if a name is too short |
| BootRewrite.Rewrite | src/main/java/io/xjar/XBootDecryptor.java:64-160 | the whole outcome: what the loop wrote and its failure if it failed, and otherwise that followed by the trailer and the trailer's failure |
| Manifests.ClassesRoot | src/main/java/io/xjar/XBootDecryptor.java:138-139 | the Spring-Boot-Classes value of the manifest read, or the empty string when there is no manifest or no such attribute |
| BootRewriteProofs.SupplementaryCharacterCountsTwice | src/main/java/io/xjar/XBootDecryptor.java:147-149 | a classes root of U+1D538 and '/' is three code units long, so writing the index name "ab" under it fails, as `substring(3)` throws in Java |
| BootRewriteProofs.ReservedEntryDropped | src/main/java/io/xjar/XBootDecryptor.java:78-84 | an entry with a reserved prefix or suffix writes nothing and is not selected for the index |
| BootRewriteProofs.DirectoryEntryOutput | src/main/java/io/xjar/XBootDecryptor.java:85-88 | a directory is re-emitted with its name and time only: no content, size, CRC or method; it never joins the index |
| BootRewriteProofs.NestedJarOutput | src/main/java/io/xjar/XBootDecryptor.java:89-102 | a nested jar fails iff it is selected and the nested decryptor rejects it; otherwise it is STORED, its size is the length of its bytes and its CRC their CRC-32, its bytes are the nested decryptor's output when selected and the input otherwise, and it never joins the index |
| BootRewriteProofs.ManifestEntryOutput | src/main/java/io/xjar/XBootDecryptor.java:103-122 | the manifest succeeds iff its (decrypted or copied) bytes parse; its content is then the serialized manifest with its main class restored, and it joins the index iff the filter selects it |
| BootRewriteProofs.OrdinaryEntryOutput | src/main/java/io/xjar/XBootDecryptor.java:123-133 | an unselected entry's bytes are copied exactly; a selected one's bytes are the decryption of its bytes and its name joins the index; a rejected decryption leaves only the header written |
| BootRewriteProofs.FailureIsFinal | src/main/java/io/xjar/XBootDecryptor.java:77-135 | once an entry has failed, the rest of the source changes nothing |
| BootRewriteProofs.ScanSucceedsIff | src/main/java/io/xjar/XBootDecryptor.java:77-135 | the loop finishes without error iff no single entry fails |
| BootRewriteProofs.WrittenFollowsSource | src/main/java/io/xjar/XBootDecryptor.java:77-135 | a successful loop writes exactly one entry per non-reserved source entry, in source order, with that entry's name and time |
| BootRewriteProofs.IndexIsOrderedSetOfSelected | src/main/java/io/xjar/XBootDecryptor.java:67 | the index after a successful loop is the ordered set built from the selected manifest and ordinary names, in source order |
| BootRewriteProofs.IndexContents | src/main/java/io/xjar/XBootDecryptor.java:105 | the index has no duplicates, holds a name iff some selected entry bears it, and keeps the names in the order of their first selection |
| BootRewriteProofs.ManifestIsLastOne | src/main/java/io/xjar/XBootDecryptor.java:112 | the manifest consulted after the loop is the last manifest entry read, with its main class restored |
| BootRewriteProofs.IndexDataMeaning | src/main/java/io/xjar/XBootDecryptor.java:147-151 | writing the index fails iff some name is shorter than the root, in UTF-16 code units, and then it fails at the first such name; otherwise the content is, in index order, each name without as many leading code units as the root has followed by the line terminator |
| BootRewriteProofs.IndexLineIsRelativePath | src/main/java/io/xjar/XBootDecryptor.java:149 | for a name under the classes root, its index line is the name relative to that root |
| BootRewriteProofs.TrailerShape | src/main/java/io/xjar/XBootDecryptor.java:137-153 | after the copied entries, an empty index appends nothing; otherwise exactly two entries follow: the marker `root + XJAR_INF_DIR` and then the index file `root + XJAR_INF_DIR + XDEC_IDX_FILE`, with root from the last manifest, the given times, and one line per index name; it fails exactly when some index name is shorter than the root in UTF-16 code units |
| BootRewriteProofs.NothingSelectedAppendsNothing | src/main/java/io/xjar/XBootDecryptor.java:137 | when the filter selects nothing, the index stays empty and nothing is appended |
| BootRewriteProofs.IndexFileNameIsReserved | src/main/java/io/xjar/XBootDecryptor.java:81 | the index file a pass writes has a reserved name, so a later pass drops it |
| Manifests.RestoreMainClass | src/main/java/io/xjar/XBootDecryptor.java:113-118 | when Origin-Main-Class is present, Main-Class takes its value and Origin-Main-Class is removed, and the key set changes by exactly that; when it is absent, the manifest is unchanged; every other attribute and every section is preserved |
| Manifests.RestoreKeepsClassesRoot | src/main/java/io/xjar/XBootDecryptor.java:138 | restoring the main class does not change the classes root |
| OrderedSets.Add | src/main/java/io/xjar/XBootDecryptor.java:105 | adding a present element changes nothing, and adding a new one appends it; freedom from duplicates is kept and membership grows by exactly the element |
| OrderedSets.Dedup | src/main/java/io/xjar/XBootDecryptor.java:67 | the ordered set of a sequence has no duplicates and the same members, and is no longer than the sequence |
| OrderedSets.DedupKeepsFirstInsertionOrder | src/main/java/io/xjar/XBootDecryptor.java:67 | the ordered set lists its elements in the order they first occur in the sequence |
| OrderedSets.DedupEmpty | src/main/java/io/xjar/XBootDecryptor.java:137 | the ordered set is empty iff nothing was added |

## Left out

- Opening the source and destination files (`decrypt(XKey, File, File)`, lines 54-61) and the closing of both streams in `finally` (lines 156-159): these are I/O resource handling.
- The commons-compress stream machinery: `JarArchiveInputStream`, `JarArchiveOutputStream`, the `NoClose*` wrappers, `closeArchiveEntry`, `finish` and the container format itself. The source is a sequence of entry records, and the writer is a sequence of entries to which bytes are appended. The reader's own format errors and any write I/O errors are not modelled.
- The compression level (`level`, `setLevel`) and deflate compression: every entry the pass creates except nested jars (which are STORED, line 96) carries an unspecified method, which the writer turns into its default.
- The constructors, which only store the level and the filters.
- The cryptography, `XKey`, the `XJarDecryptor` internals and `xNopDecryptor`: decryption under the key is an abstract function that may reject its input, and the no-op decryptor is the identity.
- CRC-32 arithmetic: an abstract function from bytes to an unsigned 32-bit value.
- The two decryptor calls `decrypt(key, InputStream)` for the manifest (line 108) and `decrypt(key, OutputStream)` for an ordinary entry (line 130) are both the one function `decrypt` of the configuration. The model thus assumes that both calls yield the same plaintext for the same bytes, and ManifestEntryOutput and OrdinaryEntryOutput hold under that assumption.
- Manifest text parsing and serialization (`new Manifest(bis)`, `manifest.write`): both are abstract functions.
- Case-insensitive attribute names and attribute order: names are compared exactly, and the main attributes are a map.
- `String.getBytes`: an abstract function from strings to bytes, so the platform charset is not modelled.
- `System.currentTimeMillis()` (lines 140, 145): the two timestamps of the appended entries are parameters.
- The combination of the filter chain in the superclass `XEntryDecryptor`, which is not part of this model: `filter` is a given predicate on entries.
- BootDecryptor.CopyOrdinary: a selected entry is decrypted as a whole. So when decryption fails partway, the bytes the streaming decryptor at lines 130-131 had already passed on are not modelled, and the failed entry is left with only its header.
- BootRewrite.Step: for the same reason, a failed ordinary entry yields only its header.
- BootRewriteProofs.OrdinaryEntryOutput: for the same reason, a rejected decryption is stated to leave only the header.
