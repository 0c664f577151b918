/**
  Archive entries as the jar reader yields them and the jar writer receives
  them, and the sequential writer that entries are appended to.
 */
module Archive {

  import opened Wrappers
  import opened JavaStrings

  type byte = bv8
  type Bytes = seq<byte>

  /** An unsigned 32-bit value, the range of a CRC-32 checksum. */
  type u32 = x: int | 0 <= x < 0x1_0000_0000

  /** The compression method in an entry header; Unspecified leaves it to the writer's default. */
  datatype Method = Unspecified | Stored | Deflated

  /**
    One archive entry: its header (name, modification time, compression method, declared
    size and CRC, where None stands for "not set") and its content bytes.
   */
  datatype Entry = Entry(name: JString, time: int, compression: Method, size: Option<nat>, crc: Option<u32>, data: Bytes)
  {
    /** The container library treats an entry as a directory exactly when its name ends in '/'. */
    predicate IsDirectory() {
      EndsWith(name, Ascii("/"))
    }
  }

  /** The header built by a fresh entry of this name with its time set, and nothing else. */
  function NewEntry(name: JString, time: int): Entry {
    Entry(name, time, Unspecified, None, None, [])
  }

  /** The entries after `b` has been written into the content of the last (open) one. */
  function AppendToLast(es: seq<Entry>, b: Bytes): (r: seq<Entry>)
    requires es != []
    ensures |r| == |es| && r[..|es| - 1] == es[..|es| - 1]
    ensures r[|es| - 1] == es[|es| - 1].(data := es[|es| - 1].data + b)
  {
    var last := es[|es| - 1];
    es[..|es| - 1] + [last.(data := last.data + b)]
  }

  lemma AppendAfterPut(es: seq<Entry>, header: Entry, b: Bytes)
    ensures AppendToLast(es + [header], b) == es + [header.(data := header.data + b)]
  {
    assert (es + [header])[..|es|] == es;
  }

  /**
    The archive output stream: a header opens a new entry, and written bytes go
    into the content of the entry opened last.
   */
  class JarWriter {
    var entries: seq<Entry>

    constructor ()
      ensures entries == []
    {
      entries := [];
    }

    method PutArchiveEntry(header: Entry)
      modifies this
      ensures entries == old(entries) + [header]
    {
      entries := entries + [header];
    }

    method Write(b: Bytes)
      requires entries != []
      modifies this
      ensures entries == AppendToLast(old(entries), b)
    {
      entries := AppendToLast(entries, b);
    }
  }
}
