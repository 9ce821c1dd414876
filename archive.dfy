/**
 * The archive as the packet services see it: the ordered entries written
 * through a Zip::OutputStream. The ZIP byte format itself is not modelled.
 */
module Archive {

  type Bytes = seq<bv8>

  /** One archive entry: its path inside the archive and its bytes. */
  datatype Entry = Entry(path: string, content: Bytes)

  /** The entry paths, in archive order. */
  function Paths(entries: seq<Entry>): seq<string> {
    seq(|entries|, i requires 0 <= i < |entries| => entries[i].path)
  }

  /** No two positions hold the same name. */
  predicate Distinct(names: seq<string>) {
    forall i, j :: 0 <= i < j < |names| ==> names[i] != names[j]
  }

  /** Two runs of entries with distinct paths, no path shared between them, concatenate to one. */
  lemma DistinctAppend(a: seq<Entry>, b: seq<Entry>)
    requires Distinct(Paths(a)) && Distinct(Paths(b))
    requires forall i, j :: 0 <= i < |a| && 0 <= j < |b| ==> a[i].path != b[j].path
    ensures Distinct(Paths(a + b))
  {
    var ab := a + b;
    forall i, j | 0 <= i < j < |ab| ensures Paths(ab)[i] != Paths(ab)[j] {
      if j < |a| {
        assert Paths(a)[i] != Paths(a)[j];
      } else if i >= |a| {
        assert Paths(b)[i - |a|] != Paths(b)[j - |a|];
      } else {
        assert ab[j] == b[j - |a|];
      }
    }
  }

  /** Whether the entries `section` appear in `entries`, whole and in order, starting at `off`. */
  predicate SectionAt(entries: seq<Entry>, off: nat, section: seq<Entry>) {
    off + |section| <= |entries| && entries[off..off + |section|] == section
  }

  /** Whether `s` starts with `p`. */
  predicate HasPrefix(p: string, s: string) {
    |p| <= |s| && s[..|p|] == p
  }

  /**
   * The output stream of a packet: `put_next_entry` opens a new entry (it is
   * part of the archive from then on, even if nothing is written to it), and
   * `write` appends bytes to the entry opened last.
   */
  class ArchiveWriter {
    var entries: seq<Entry>

    constructor ()
      ensures entries == []
    {
      entries := [];
    }

    method PutNextEntry(path: string)
      modifies this
      ensures entries == old(entries) + [Entry(path, [])]
    {
      entries := entries + [Entry(path, [])];
    }

    method Write(data: Bytes)
      requires entries != []
      modifies this
      ensures var last := old(entries)[|old(entries)| - 1];
        entries == old(entries)[..|old(entries)| - 1] + [Entry(last.path, last.content + data)]
    {
      var last := entries[|entries| - 1];
      entries := entries[..|entries| - 1] + [Entry(last.path, last.content + data)];
    }
  }

  // ---------------------------------------------------------------- proof helpers
  // Sequence identities stated once, so that the larger proofs using them stay cheap.

  /** Appending is associative. */
  lemma AppendAssoc(a: seq<Entry>, b: seq<Entry>, c: seq<Entry>)
    ensures a + (b + c) == (a + b) + c
  {
  }

  /** A path built as `p + r` starts with `p`, and what follows `p` is `r`. */
  lemma PrefixSplit(p: string, r: string)
    ensures HasPrefix(p, p + r) && (p + r)[|p|..] == r
  {
  }

  /** What ends a prefix of `entries` is a section of `entries` at the same offset. */
  lemma SectionOfPrefix(entries: seq<Entry>, front: seq<Entry>, section: seq<Entry>)
    requires |front| <= |entries| && entries[..|front|] == front
    requires |section| <= |front| && front[|front| - |section|..] == section
    ensures SectionAt(entries, |front| - |section|, section)
  {
    var off := |front| - |section|;
    assert entries[off..off + |section|] == entries[..|front|][off..];
  }
}
