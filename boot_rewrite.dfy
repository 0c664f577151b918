/**
  What one decryption pass over a Spring Boot jar produces, as functions:
  how each source entry is classified, what it becomes in the output, how
  the index of transformed names grows, and the two entries appended at the
  end. The imperative pass in module BootDecryptor is proved against these.
 */
module BootRewrite {

  import opened Wrappers
  import opened JavaStrings
  import opened Archive
  import opened Manifests
  import opened OrderedSets

  /**
    The reserved names shared with the encrypting tool: the marker directory,
    the source-retention directory, the encryption and decryption index file
    names, and the line terminator of the index file.
   */
  datatype ReservedNames = ReservedNames(infDir: JString, srcDir: JString, encIdxFile: JString, decIdxFile: JString, crlf: JString)

  /**
    Everything the pass depends on but does not define. `decrypt` is the
    configured decryptor under the caller's key, `nested` the whole-jar
    decryptor used for nested jars; a None result is a rejected input. `parse`
    reads manifest text (None: not a manifest), `serialize` writes it back,
    and `encode` is the platform's string-to-bytes conversion.
   */
  datatype Config = Config(
    names: ReservedNames,
    filter: Entry -> bool,
    decrypt: Bytes -> Option<Bytes>,
    nested: Bytes -> Option<Bytes>,
    crc32: Bytes -> u32,
    parse: Bytes -> Option<Manifest>,
    serialize: Manifest -> Bytes,
    encode: JString -> Bytes)

  const MANIFEST_NAME := Ascii("META-INF/MANIFEST.MF")
  const JAR_SUFFIX := Ascii(".jar")

  /** The failures that abort the pass; each names the entry concerned. */
  datatype Error =
    | DecryptFailed(name: JString)
    | NestedDecryptFailed(name: JString)
    | ManifestUnreadable(name: JString)
    | IndexNameTooShort(name: JString)

  datatype Result<T> = Ok(value: T) | Err(error: Error)

  /** The classification of a source entry, in the order the pass tests the cases. */
  datatype Kind = Reserved | Directory | NestedJar | ManifestFile | Ordinary

  /** Names left by an earlier encryption pass; such entries are dropped. */
  predicate IsReserved(n: ReservedNames, name: JString) {
    || StartsWith(name, n.infDir)
    || StartsWith(name, n.srcDir)
    || EndsWith(name, n.infDir + n.encIdxFile)
    || EndsWith(name, n.infDir + n.decIdxFile)
  }

  function Classify(n: ReservedNames, e: Entry): Kind {
    if IsReserved(n, e.name) then Reserved
    else if e.IsDirectory() then Directory
    else if EndsWith(e.name, JAR_SUFFIX) then NestedJar
    else if e.name == MANIFEST_NAME then ManifestFile
    else Ordinary
  }

  /** The entries whose names go into the index: the manifest and ordinary entries the filter selects. */
  predicate Selected(c: Config, e: Entry) {
    var k := Classify(c.names, e);
    (k == ManifestFile || k == Ordinary) && c.filter(e)
  }

  /** Content of a manifest or ordinary entry: decrypted when selected, a copy otherwise. */
  function Plain(c: Config, e: Entry): Option<Bytes> {
    if c.filter(e) then c.decrypt(e.data) else Some(e.data)
  }

  /** Content of a nested jar: passed through the whole-jar decryptor when selected, a copy otherwise. */
  function NestedPlain(c: Config, e: Entry): Option<Bytes> {
    if c.filter(e) then c.nested(e.data) else Some(e.data)
  }

  /** The manifest a manifest entry yields: its plain bytes parsed, with the main class restored. */
  function ManifestOf(c: Config, e: Entry): Result<Manifest> {
    match Plain(c, e)
    case None => Err(DecryptFailed(e.name))
    case Some(b) =>
      match c.parse(b)
      case None => Err(ManifestUnreadable(e.name))
      case Some(m) => Ok(RestoreMainClass(m))
  }

  /**
    What one source entry does to the output. Skip: nothing. Emit: one
    output entry, whether its name joins the index, and the manifest it
    yields. Fail: the entries already written when the failure happens.
   */
  datatype StepResult =
    | Skip
    | Emit(entry: Entry, indexed: bool, manifest: Option<Manifest>)
    | Fail(partial: seq<Entry>, error: Error)

  function Step(c: Config, e: Entry): (r: StepResult)
    ensures r.Skip? <==> IsReserved(c.names, e.name)
    ensures r.Emit? ==> r.entry.name == e.name && r.entry.time == e.time
    ensures r.Emit? ==> (r.indexed <==> Selected(c, e))
    ensures r.Emit? ==> (r.manifest.Some? <==> Classify(c.names, e) == ManifestFile)
    ensures r.Fail? ==> Classify(c.names, e) in {NestedJar, ManifestFile, Ordinary}
  {
    match Classify(c.names, e)
    case Reserved => Skip
    case Directory => Emit(NewEntry(e.name, e.time), false, None)
    case NestedJar =>
      (match NestedPlain(c, e)
       case None => Fail([], NestedDecryptFailed(e.name))
       case Some(b) => Emit(Entry(e.name, e.time, Stored, Some(|b|), Some(c.crc32(b)), b), false, None))
    case ManifestFile =>
      (match ManifestOf(c, e)
       case Err(err) => Fail([], err)
       case Ok(m) => Emit(NewEntry(e.name, e.time).(data := c.serialize(m)), c.filter(e), Some(m)))
    case Ordinary =>
      (match Plain(c, e)
       case None => Fail([NewEntry(e.name, e.time)], DecryptFailed(e.name))
       case Some(b) => Emit(NewEntry(e.name, e.time).(data := b), c.filter(e), None))
  }

  /**
    The state of the pass after a prefix of the source: the entries written,
    the index, the last manifest read, and the failure that ended it, if any.
   */
  datatype Pass = Pass(written: seq<Entry>, indexes: seq<JString>, manifest: Option<Manifest>, failure: Option<Error>)

  /** The entries one source entry writes. */
  function Emitted(r: StepResult): seq<Entry> {
    match r
    case Skip => []
    case Emit(out, _, _) => [out]
    case Fail(partial, _) => partial
  }

  /** The failure one source entry causes, if any. */
  function FailureOf(r: StepResult): Option<Error> {
    if r.Fail? then Some(r.error) else None
  }

  function Absorb(c: Config, p: Pass, e: Entry): Pass {
    if p.failure.Some? then p
    else
      var r := Step(c, e);
      Pass(p.written + Emitted(r),
           if r.Emit? && r.indexed then Add(p.indexes, e.name) else p.indexes,
           if r.Emit? && r.manifest.Some? then r.manifest else p.manifest,
           FailureOf(r))
  }

  /** The state after reading every entry of `src` in order. */
  function Scan(c: Config, src: seq<Entry>): Pass
    decreases |src|
  {
    if src == [] then Pass([], [], None, None)
    else Absorb(c, Scan(c, src[..|src| - 1]), src[|src| - 1])
  }

  /** Index file content written so far, and the first name too short to strip, if one was met. */
  datatype Lines = Lines(bytes: Bytes, tooShort: Option<JString>)

  /** Each index name loses its first `n` code units and is followed by the line terminator. */
  function IndexData(c: Config, names: seq<JString>, n: nat): Lines
    decreases |names|
  {
    if names == [] then Lines([], None)
    else
      var prev := IndexData(c, names[..|names| - 1], n);
      var name := names[|names| - 1];
      if prev.tooShort.Some? then prev
      else if n > |name| then Lines(prev.bytes, Some(name))
      else Lines(prev.bytes + c.encode(name[n..]) + c.encode(c.names.crlf), None)
  }

  /** What a pass writes, entry by entry, and how it ended. */
  datatype Outcome = Outcome(written: seq<Entry>, failure: Option<Error>)

  /** The marker directory and the index file, both under the classes root. */
  function Trailer(c: Config, p: Pass, markerTime: int, indexTime: int): Outcome {
    if p.indexes == [] then Outcome([], None)
    else
      var root := ClassesRoot(p.manifest);
      var lines := IndexData(c, p.indexes, |root|);
      Outcome([NewEntry(root + c.names.infDir, markerTime),
               NewEntry(root + c.names.infDir + c.names.decIdxFile, indexTime).(data := lines.bytes)],
              if lines.tooShort.Some? then Some(IndexNameTooShort(lines.tooShort.value)) else None)
  }

  /** The whole pass; the two times are the clock readings given to the appended entries. */
  function Rewrite(c: Config, src: seq<Entry>, markerTime: int, indexTime: int): Outcome {
    var p := Scan(c, src);
    if p.failure.Some? then Outcome(p.written, p.failure)
    else
      var t := Trailer(c, p, markerTime, indexTime);
      Outcome(p.written + t.written, t.failure)
  }
}
