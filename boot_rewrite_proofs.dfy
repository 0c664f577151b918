/**
  Properties of the decryption pass: what happens to each kind of entry,
  that source order and names survive, how the index is kept, and what is
  appended at the end.
 */
module BootRewriteProofs {

  import opened Wrappers
  import opened JavaStrings
  import opened Archive
  import opened Manifests
  import opened OrderedSets
  import opened BootRewrite

  // ---------------------------------------------------------------------
  // One entry at a time
  // ---------------------------------------------------------------------

  /** A reserved entry writes nothing and never joins the index. */
  lemma ReservedEntryDropped(c: Config, e: Entry)
    requires IsReserved(c.names, e.name)
    ensures Step(c, e) == Skip && !Selected(c, e)
  {
  }

  /** A directory is written again with its name and time only: no content, size, CRC or method. */
  lemma DirectoryEntryOutput(c: Config, e: Entry)
    requires !IsReserved(c.names, e.name) && e.IsDirectory()
    ensures Step(c, e).Emit?
    ensures Step(c, e).entry == Entry(e.name, e.time, Unspecified, None, None, [])
    ensures Step(c, e).entry.IsDirectory()
    ensures !Step(c, e).indexed && !Selected(c, e)
  {
  }

  /**
    A nested jar is written STORED, with size and CRC of the bytes written;
    those bytes are the nested decryptor's output when selected and the
    source bytes otherwise; its name never joins the index.
   */
  lemma NestedJarOutput(c: Config, e: Entry)
    requires Classify(c.names, e) == NestedJar
    ensures Step(c, e).Fail? <==> c.filter(e) && c.nested(e.data).None?
    ensures Step(c, e).Fail? ==> Step(c, e) == Fail([], NestedDecryptFailed(e.name))
    ensures Step(c, e).Emit? ==>
      var out := Step(c, e).entry;
      && out.compression == Stored
      && out.size == Some(|out.data|)
      && out.crc == Some(c.crc32(out.data))
      && out.data == (if c.filter(e) then c.nested(e.data).value else e.data)
      && !Step(c, e).indexed
  {
  }

  /**
    The manifest entry is always parsed, whether or not it is selected; the
    output holds the parsed manifest with its main class restored, and its
    name joins the index exactly when the filter selects it.
   */
  lemma ManifestEntryOutput(c: Config, e: Entry)
    requires Classify(c.names, e) == ManifestFile
    ensures Step(c, e).Emit? <==> Plain(c, e).Some? && c.parse(Plain(c, e).value).Some?
    ensures Step(c, e).Emit? ==>
      var m := c.parse(Plain(c, e).value).value;
      && Step(c, e).manifest == Some(RestoreMainClass(m))
      && Step(c, e).entry == NewEntry(e.name, e.time).(data := c.serialize(RestoreMainClass(m)))
      && (Step(c, e).indexed <==> c.filter(e))
    ensures Step(c, e).Fail? ==> Step(c, e).partial == []
  {
  }

  /**
    An ordinary entry holds the decrypted bytes when selected and exactly the
    source bytes otherwise; its name joins the index exactly when selected.
    A rejected decryption leaves only the header written.
   */
  lemma OrdinaryEntryOutput(c: Config, e: Entry)
    requires Classify(c.names, e) == Ordinary
    ensures !c.filter(e) ==> Step(c, e) == Emit(NewEntry(e.name, e.time).(data := e.data), false, None)
    ensures c.filter(e) && c.decrypt(e.data).Some? ==>
      Step(c, e) == Emit(NewEntry(e.name, e.time).(data := c.decrypt(e.data).value), true, None)
    ensures c.filter(e) && c.decrypt(e.data).None? ==>
      Step(c, e) == Fail([NewEntry(e.name, e.time)], DecryptFailed(e.name))
  {
  }

  // ---------------------------------------------------------------------
  // The whole pass
  // ---------------------------------------------------------------------

  /** Reading one more entry absorbs it into the state so far. */
  lemma ScanOneMore(c: Config, src: seq<Entry>, i: nat)
    requires i < |src|
    ensures Scan(c, src[..i + 1]) == Absorb(c, Scan(c, src[..i]), src[i])
  {
    assert src[..i + 1][..i] == src[..i];
  }

  /** Once an entry has failed, the remaining entries are not read. */
  lemma {:induction false} FailureIsFinal(c: Config, src: seq<Entry>, i: nat)
    requires i <= |src|
    requires Scan(c, src[..i]).failure.Some?
    ensures Scan(c, src) == Scan(c, src[..i])
    decreases |src|
  {
    if i < |src| {
      var init := src[..|src| - 1];
      assert init[..i] == src[..i];
      FailureIsFinal(c, init, i);
    } else {
      assert src[..i] == src;
    }
  }

  lemma AbsorbFailure(c: Config, p: Pass, e: Entry)
    ensures Absorb(c, p, e).failure.Some? <==> p.failure.Some? || Step(c, e).Fail?
  {
  }

  /** An entry absorbed without failure adds its name to the index exactly when it is selected. */
  lemma AbsorbIndexes(c: Config, p: Pass, e: Entry)
    requires Absorb(c, p, e).failure == None
    ensures p.failure == None
    ensures Absorb(c, p, e).indexes == if Selected(c, e) then Add(p.indexes, e.name) else p.indexes
  {
  }

  /** An entry absorbed without failure writes one entry when kept and none when reserved. */
  lemma AbsorbWritten(c: Config, p: Pass, e: Entry)
    requires Absorb(c, p, e).failure == None
    ensures p.failure == None
    ensures IsReserved(c.names, e.name) ==> Absorb(c, p, e).written == p.written
    ensures !IsReserved(c.names, e.name) ==>
      Step(c, e).Emit? && Absorb(c, p, e).written == p.written + [Step(c, e).entry]
  {
  }

  /** An entry absorbed without failure replaces the manifest exactly when it is the manifest entry. */
  lemma AbsorbManifest(c: Config, p: Pass, e: Entry)
    requires Absorb(c, p, e).failure == None
    ensures p.failure == None
    ensures Absorb(c, p, e).manifest ==
      if Classify(c.names, e) == ManifestFile && ManifestOf(c, e).Ok? then Some(ManifestOf(c, e).value) else p.manifest
  {
  }

  /** A pass that fails at an entry writes what was written up to and including that entry's partial output. */
  lemma RewriteAfterFailure(c: Config, src: seq<Entry>, i: nat, markerTime: int, indexTime: int)
    requires i <= |src|
    requires Scan(c, src[..i]).failure.Some?
    ensures Rewrite(c, src, markerTime, indexTime) == Outcome(Scan(c, src[..i]).written, Scan(c, src[..i]).failure)
  {
    FailureIsFinal(c, src, i);
  }

  /** A pass that reads every entry without failure ends with the trailer. */
  lemma RewriteAfterSuccess(c: Config, src: seq<Entry>, markerTime: int, indexTime: int)
    requires Scan(c, src).failure == None
    ensures Rewrite(c, src, markerTime, indexTime) ==
      Outcome(Scan(c, src).written + Trailer(c, Scan(c, src), markerTime, indexTime).written,
              Trailer(c, Scan(c, src), markerTime, indexTime).failure)
  {
  }

  /** The pass succeeds exactly when no entry fails on its own. */
  lemma {:induction false} ScanSucceedsIff(c: Config, src: seq<Entry>)
    ensures Scan(c, src).failure == None <==> forall k :: 0 <= k < |src| ==> !Step(c, src[k]).Fail?
    decreases |src|
  {
    if src != [] {
      var init, e := src[..|src| - 1], src[|src| - 1];
      ScanSucceedsIff(c, init);
      assert Scan(c, src) == Absorb(c, Scan(c, init), e);
      AbsorbFailure(c, Scan(c, init), e);
      assert forall k :: 0 <= k < |init| ==> src[k] == init[k];
    }
  }

  /** The source entries that are not reserved, in source order. */
  function Kept(c: Config, src: seq<Entry>): seq<Entry>
    decreases |src|
  {
    if src == [] then []
    else Kept(c, src[..|src| - 1]) + (if IsReserved(c.names, src[|src| - 1].name) then [] else [src[|src| - 1]])
  }

  /**
    A successful pass writes exactly one entry per kept source entry, in
    source order, with the same name and time.
   */
  lemma {:induction false} WrittenFollowsSource(c: Config, src: seq<Entry>)
    requires Scan(c, src).failure == None
    ensures |Scan(c, src).written| == |Kept(c, src)|
    ensures forall k :: 0 <= k < |Kept(c, src)| ==>
      && Step(c, Kept(c, src)[k]).Emit?
      && Step(c, Kept(c, src)[k]).entry == Scan(c, src).written[k]
      && Scan(c, src).written[k].name == Kept(c, src)[k].name
      && Scan(c, src).written[k].time == Kept(c, src)[k].time
    decreases |src|
  {
    if src != [] {
      var init, e := src[..|src| - 1], src[|src| - 1];
      AbsorbWritten(c, Scan(c, init), e);
      WrittenFollowsSource(c, init);
    }
  }

  /** The names of the selected source entries, in source order and with repetitions. */
  function SelectedNames(c: Config, src: seq<Entry>): seq<JString>
    decreases |src|
  {
    if src == [] then []
    else SelectedNames(c, src[..|src| - 1]) + (if Selected(c, src[|src| - 1]) then [src[|src| - 1].name] else [])
  }

  lemma {:induction false} SelectedNamesMembership(c: Config, src: seq<Entry>, x: JString)
    ensures x in SelectedNames(c, src) <==> exists k :: 0 <= k < |src| && Selected(c, src[k]) && src[k].name == x
    decreases |src|
  {
    if src != [] {
      var init := src[..|src| - 1];
      SelectedNamesMembership(c, init, x);
      assert forall k :: 0 <= k < |init| ==> init[k] == src[k];
      if x in SelectedNames(c, src) && x !in SelectedNames(c, init) {
        assert Selected(c, src[|src| - 1]) && src[|src| - 1].name == x;
      }
    }
  }

  /** The index of a successful pass is the ordered set of the selected names. */
  lemma {:induction false} IndexIsOrderedSetOfSelected(c: Config, src: seq<Entry>)
    requires Scan(c, src).failure == None
    ensures Scan(c, src).indexes == Dedup(SelectedNames(c, src))
    decreases |src|
  {
    if src != [] {
      var init, e := src[..|src| - 1], src[|src| - 1];
      AbsorbIndexes(c, Scan(c, init), e);
      IndexIsOrderedSetOfSelected(c, init);
      var names := SelectedNames(c, init);
      if Selected(c, e) {
        assert SelectedNames(c, src) == names + [e.name];
        assert (names + [e.name])[..|names|] == names;
      } else {
        assert SelectedNames(c, src) == names;
      }
    }
  }

  /**
    After a successful pass the index has no duplicates, holds a name exactly
    when some selected entry has it, and keeps first-insertion order.
   */
  lemma IndexContents(c: Config, src: seq<Entry>)
    requires Scan(c, src).failure == None
    ensures NoDuplicates(Scan(c, src).indexes)
    ensures forall x :: x in Scan(c, src).indexes <==> exists k :: 0 <= k < |src| && Selected(c, src[k]) && src[k].name == x
    ensures forall x :: x in Scan(c, src).indexes <==> x in SelectedNames(c, src)
    ensures InFirstOccurrenceOrder(SelectedNames(c, src), Scan(c, src).indexes)
  {
    IndexIsOrderedSetOfSelected(c, src);
    var names := SelectedNames(c, src);
    DedupKeepsFirstInsertionOrder(names);
    forall x ensures x in Scan(c, src).indexes <==> exists k :: 0 <= k < |src| && Selected(c, src[k]) && src[k].name == x {
      assert x in Scan(c, src).indexes <==> x in names;
      SelectedNamesMembership(c, src, x);
    }
  }

  /** The last manifest of the source, read and with its main class restored. */
  function LastManifest(c: Config, src: seq<Entry>): Option<Manifest>
    decreases |src|
  {
    if src == [] then None
    else
      var e := src[|src| - 1];
      if Classify(c.names, e) == ManifestFile && ManifestOf(c, e).Ok? then Some(ManifestOf(c, e).value)
      else LastManifest(c, src[..|src| - 1])
  }

  /** The classes root comes from the last manifest in the source. */
  lemma {:induction false} ManifestIsLastOne(c: Config, src: seq<Entry>)
    requires Scan(c, src).failure == None
    ensures Scan(c, src).manifest == LastManifest(c, src)
    decreases |src|
  {
    if src != [] {
      AbsorbManifest(c, Scan(c, src[..|src| - 1]), src[|src| - 1]);
      ManifestIsLastOne(c, src[..|src| - 1]);
    }
  }

  // ---------------------------------------------------------------------
  // The index file
  // ---------------------------------------------------------------------

  /** The index lines: each name without its first `n` code units. */
  function IndexLines(names: seq<JString>, n: nat): (lines: seq<JString>)
    requires forall k :: 0 <= k < |names| ==> n <= |names[k]|
    ensures |lines| == |names|
    ensures forall k :: 0 <= k < |names| ==> lines[k] == names[k][n..]
  {
    seq(|names|, k requires 0 <= k < |names| => names[k][n..])
  }

  /** Once a name is too short, the names after it are not written. */
  lemma {:induction false} IndexDataFailureIsFinal(c: Config, names: seq<JString>, i: nat, n: nat)
    requires i <= |names|
    requires IndexData(c, names[..i], n).tooShort.Some?
    ensures IndexData(c, names, n) == IndexData(c, names[..i], n)
    decreases |names|
  {
    if i < |names| {
      var init := names[..|names| - 1];
      assert init[..i] == names[..i];
      IndexDataFailureIsFinal(c, init, i, n);
    } else {
      assert names[..i] == names;
    }
  }

  /** The bytes of the given lines, each followed by the line terminator. */
  function JoinLines(c: Config, lines: seq<JString>): Bytes
    decreases |lines|
  {
    if lines == [] then [] else c.encode(lines[0]) + c.encode(c.names.crlf) + JoinLines(c, lines[1..])
  }

  lemma {:induction false} JoinLinesAppend(c: Config, lines: seq<JString>, line: JString)
    ensures JoinLines(c, lines + [line]) == JoinLines(c, lines) + c.encode(line) + c.encode(c.names.crlf)
    decreases |lines|
  {
    if lines != [] {
      assert (lines + [line])[1..] == lines[1..] + [line];
      JoinLinesAppend(c, lines[1..], line);
    }
  }

  /**
    Writing the index fails exactly when some name is shorter than the classes
    root, and then at the first such name; otherwise the content is one line
    per index name, in index order.
   */
  lemma {:induction false} IndexDataMeaning(c: Config, names: seq<JString>, n: nat)
    ensures IndexData(c, names, n).tooShort.Some? <==> exists k :: 0 <= k < |names| && |names[k]| < n
    ensures IndexData(c, names, n).tooShort.Some? ==>
      exists k :: 0 <= k < |names| && |names[k]| < n && names[k] == IndexData(c, names, n).tooShort.value
        && forall j :: 0 <= j < k ==> n <= |names[j]|
    ensures IndexData(c, names, n).tooShort.None? ==>
      IndexData(c, names, n).bytes == JoinLines(c, IndexLines(names, n))
    decreases |names|
  {
    if names != [] {
      var init := names[..|names| - 1];
      IndexDataMeaning(c, init, n);
      assert forall k :: 0 <= k < |init| ==> init[k] == names[k];
      if IndexData(c, init, n).tooShort.None? && n <= |names[|names| - 1]| {
        assert IndexLines(names, n) == IndexLines(init, n) + [names[|names| - 1][n..]];
        JoinLinesAppend(c, IndexLines(init, n), names[|names| - 1][n..]);
      }
    }
  }

  /** For a name under the classes root, its index line is its path relative to that root. */
  lemma IndexLineIsRelativePath(names: seq<JString>, root: JString, k: nat)
    requires forall j :: 0 <= j < |names| ==> |root| <= |names[j]|
    requires k < |names| && StartsWith(names[k], root)
    ensures root + IndexLines(names, |root|)[k] == names[k]
  {
    assert names[k] == names[k][..|root|] + names[k][|root|..];
  }

  /**
    Lengths are counted in UTF-16 code units: a classes root made of U+1D538
    and '/' is three units long, so the two-unit name "ab" is too short for it
    and writing the index stops there.
   */
  lemma SupplementaryCharacterCountsTwice(c: Config)
    ensures var root: JString := [0xD835, 0xDD38, 0x2F];
      && |root| == 3
      && IndexData(c, [Ascii("ab")], |root|) == Lines([], Some(Ascii("ab")))
  {
    assert [Ascii("ab")][..0] == [];
  }

  /**
    A successful pass appends nothing when the index is empty, and otherwise
    exactly the marker directory and the index file under the classes root of
    the last manifest, the index file holding one line per index name.
   */
  lemma TrailerShape(c: Config, src: seq<Entry>, markerTime: int, indexTime: int)
    requires Scan(c, src).failure == None
    ensures var out := Rewrite(c, src, markerTime, indexTime);
      && Scan(c, src).written <= out.written
      && (Scan(c, src).indexes == [] ==> out == Outcome(Scan(c, src).written, None))
      && (Scan(c, src).indexes != [] ==>
            var root := ClassesRoot(LastManifest(c, src));
            var n := |Scan(c, src).written|;
            && |out.written| == n + 2
            && out.written[n] == NewEntry(root + c.names.infDir, markerTime)
            && out.written[n + 1].name == root + c.names.infDir + c.names.decIdxFile
            && out.written[n + 1].time == indexTime
            && (out.failure == None <==> forall k :: 0 <= k < |Scan(c, src).indexes| ==> |root| <= |Scan(c, src).indexes[k]|)
            && (out.failure == None ==>
                  out.written[n + 1].data == JoinLines(c, IndexLines(Scan(c, src).indexes, |root|))))
  {
    ManifestIsLastOne(c, src);
    IndexDataMeaning(c, Scan(c, src).indexes, |ClassesRoot(LastManifest(c, src))|);
  }

  /** When the filter selects nothing, nothing is decrypted, no index is kept and nothing is appended. */
  lemma NothingSelectedAppendsNothing(c: Config, src: seq<Entry>, markerTime: int, indexTime: int)
    requires forall k :: 0 <= k < |src| ==> !c.filter(src[k])
    requires Scan(c, src).failure == None
    ensures Scan(c, src).indexes == []
    ensures Rewrite(c, src, markerTime, indexTime) == Outcome(Scan(c, src).written, None)
  {
    IndexIsOrderedSetOfSelected(c, src);
    forall x ensures x !in SelectedNames(c, src) {
      SelectedNamesMembership(c, src, x);
    }
    DedupEmpty(SelectedNames(c, src));
  }

  /** The index file written by a pass carries a reserved name, so a later pass drops it. */
  lemma IndexFileNameIsReserved(c: Config, root: JString)
    ensures IsReserved(c.names, root + c.names.infDir + c.names.decIdxFile)
  {
    assert root + c.names.infDir + c.names.decIdxFile == root + (c.names.infDir + c.names.decIdxFile);
    EndsWithConcat(root, c.names.infDir + c.names.decIdxFile);
  }
}
