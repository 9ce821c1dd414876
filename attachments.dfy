/**
 * Issues, attachments, and the attachment loop that both packet services run:
 * skip an attachment that is not readable, otherwise resolve a unique name
 * against the registry of names already archived, register it, open the entry
 * and read the file into it. The services differ only in the path prefix and
 * in what a failed read does: the single service rescues it and goes on, the
 * multi service re-raises and stops.
 */
module Attachments {
  import opened Wrappers
  import opened Archive
  import opened FileNames

  /** A Redmine attachment as the services use it; `readable` is `attachment.readable?`. */
  datatype Attachment = Attachment(filename: string, diskfile: string, readable: bool)

  /** A Redmine issue: its id, the id of its project, and its attachments in order. */
  datatype Issue = Issue(id: nat, projectId: nat, attachments: seq<Attachment>)

  /** What `IO.binread(diskfile)` does: return the bytes or raise with a message. */
  datatype ReadResult = Read(data: Bytes) | ReadFailed(message: string)

  /** The file store as a function from disk file to read outcome. */
  type Reader = string -> ReadResult

  /** A rescued attachment error: the attachment's filename and the exception message. */
  datatype AttachError = AttachError(filename: string, message: string)

  /**
   * The state of the loop after some attachments: the entries written, the
   * registry `archived_filenames`, and the error that stopped the loop, if any.
   */
  datatype Pass = Pass(entries: seq<Entry>, registry: seq<string>, failure: Option<AttachError>)

  predicate NamesOk(atts: seq<Attachment>) {
    forall i :: 0 <= i < |atts| ==> PlainName(atts[i].filename)
  }

  /** The bytes an opened entry ends up holding: the file, or nothing when the read raised. */
  function Written(r: ReadResult): Bytes {
    match r
    case Read(data) => data
    case ReadFailed(_) => []
  }

  /** The readable attachments, in order. */
  function Readables(atts: seq<Attachment>): seq<Attachment> {
    if atts == [] then []
    else Readables(atts[..|atts| - 1]) + (if atts[|atts| - 1].readable then [atts[|atts| - 1]] else [])
  }

  /**
   * The attachment loop over `atts`, starting from registry `seed`; entries are
   * written at `prefix + name`. With `abort`, a failed read stops the loop and
   * is reported; without it, the failure is rescued and the loop goes on.
   * Either way the entry was opened before the read, so it stays, empty.
   */
  function AttachPass(prefix: string, atts: seq<Attachment>, seed: seq<string>, read: Reader, abort: bool): Pass
    requires NamesOk(atts)
  {
    if atts == [] then Pass([], seed, None)
    else
      var p := AttachPass(prefix, atts[..|atts| - 1], seed, read, abort);
      var a := atts[|atts| - 1];
      if p.failure.Some? || !a.readable then p else Step(prefix, p, a, read, abort)
  }

  /** One readable attachment: resolve and register its name, open its entry, read the file into it. */
  function Step(prefix: string, p: Pass, a: Attachment, read: Reader, abort: bool): Pass
    requires PlainName(a.filename)
  {
    var name := Resolve(a.filename, p.registry);
    var r := read(a.diskfile);
    Pass(p.entries + [Entry(prefix + name, Written(r))], p.registry + [name],
      if abort && r.ReadFailed? then Some(AttachError(a.filename, r.message)) else None)
  }

  /** The loop after attachment i, in terms of the loop before it. */
  lemma PassNext(prefix: string, atts: seq<Attachment>, seed: seq<string>, read: Reader, abort: bool, i: nat)
    requires NamesOk(atts) && i < |atts|
    ensures var p := AttachPass(prefix, atts[..i], seed, read, abort);
      AttachPass(prefix, atts[..i + 1], seed, read, abort) ==
        if p.failure.Some? || !atts[i].readable then p else Step(prefix, p, atts[i], read, abort)
  {
    assert atts[..i + 1][..i] == atts[..i];
  }

  /** An unreadable attachment leaves the loop as it was. */
  lemma PassSkips(prefix: string, atts: seq<Attachment>, seed: seq<string>, read: Reader, abort: bool, i: nat)
    requires NamesOk(atts) && i < |atts| && !atts[i].readable
    ensures AttachPass(prefix, atts[..i + 1], seed, read, abort) == AttachPass(prefix, atts[..i], seed, read, abort)
  {
    PassNext(prefix, atts, seed, read, abort, i);
  }

  /**
   * A readable attachment read without escaping failure adds one entry, at
   * `prefix` + the name resolved against the registry, and registers that name.
   */
  lemma PassWrites(prefix: string, atts: seq<Attachment>, seed: seq<string>, read: Reader, abort: bool, i: nat, name: string)
    requires NamesOk(atts) && i < |atts| && atts[i].readable
    requires AttachPass(prefix, atts[..i], seed, read, abort).failure.None?
    requires name == Resolve(atts[i].filename, AttachPass(prefix, atts[..i], seed, read, abort).registry)
    requires !abort || read(atts[i].diskfile).Read?
    ensures var p := AttachPass(prefix, atts[..i], seed, read, abort);
      AttachPass(prefix, atts[..i + 1], seed, read, abort) ==
        Pass(p.entries + [Entry(prefix + name, Written(read(atts[i].diskfile)))], p.registry + [name], None)
  {
    PassNext(prefix, atts, seed, read, abort, i);
  }

  /** The loop over a list extended by one readable attachment whose read does not stop it. */
  lemma PassAppend(prefix: string, xs: seq<Attachment>, a: Attachment, seed: seq<string>, read: Reader, abort: bool, name: string)
    requires NamesOk(xs) && PlainName(a.filename) && a.readable
    requires AttachPass(prefix, xs, seed, read, abort).failure.None?
    requires name == Resolve(a.filename, AttachPass(prefix, xs, seed, read, abort).registry)
    requires !abort || read(a.diskfile).Read?
    ensures NamesOk(xs + [a])
    ensures var p := AttachPass(prefix, xs, seed, read, abort);
      AttachPass(prefix, xs + [a], seed, read, abort) ==
        Pass(p.entries + [Entry(prefix + name, Written(read(a.diskfile)))], p.registry + [name], None)
  {
    assert (xs + [a])[..|xs|] == xs;
    assert forall i :: 0 <= i < |xs| ==> xs[i] == (xs + [a])[i];
  }

  /**
   * The registry starts as `seed` and gains one name per entry; each entry sits
   * at `prefix` + its registered name; a registry without repeats keeps none;
   * and without `abort` no failure ever escapes the loop.
   */
  lemma {:induction false} PassRegistry(prefix: string, atts: seq<Attachment>, seed: seq<string>, read: Reader, abort: bool)
    requires NamesOk(atts)
    ensures var p := AttachPass(prefix, atts, seed, read, abort);
      && |p.registry| == |seed| + |p.entries|
      && p.registry[..|seed|] == seed
      && (forall k :: 0 <= k < |p.entries| ==> p.entries[k].path == prefix + p.registry[|seed| + k])
      && (Distinct(seed) ==> Distinct(p.registry))
      && (!abort ==> p.failure.None?)
  {
    if atts != [] {
      var init := atts[..|atts| - 1];
      PassRegistry(prefix, init, seed, read, abort);
      var p := AttachPass(prefix, init, seed, read, abort);
      var a := atts[|atts| - 1];
      if p.failure.None? && a.readable {
        ResolveSpec(a.filename, p.registry);
        var q := AttachPass(prefix, atts, seed, read, abort);
        assert q.registry == p.registry + [Resolve(a.filename, p.registry)];
        assert q.registry[..|seed|] == p.registry[..|seed|];
      }
    }
  }

  /**
   * Every readable attachment gets one entry, in order, unless the loop stopped
   * early; unreadable ones get none.
   */
  lemma {:induction false} PassCount(prefix: string, atts: seq<Attachment>, seed: seq<string>, read: Reader, abort: bool)
    requires NamesOk(atts)
    ensures var p := AttachPass(prefix, atts, seed, read, abort);
      && |p.entries| <= |Readables(atts)|
      && (p.failure.None? ==> |p.entries| == |Readables(atts)|)
  {
    if atts != [] {
      PassCount(prefix, atts[..|atts| - 1], seed, read, abort);
    }
  }

  /**
   * Entry k of the loop comes from readable attachment k: it holds what reading
   * that file gave (nothing if the read raised), under the attachment's name or
   * a disambiguated form of it.
   */
  lemma {:induction false} PassContents(prefix: string, atts: seq<Attachment>, seed: seq<string>, read: Reader, abort: bool)
    requires NamesOk(atts)
    ensures var p := AttachPass(prefix, atts, seed, read, abort);
      var rs := Readables(atts);
      && |p.registry| == |seed| + |p.entries|
      && |p.entries| <= |rs|
      && forall k :: 0 <= k < |p.entries| ==>
           p.entries[k].content == Written(read(rs[k].diskfile)) &&
           IsVariant(p.registry[|seed| + k], rs[k].filename)
  {
    PassRegistry(prefix, atts, seed, read, abort);
    PassCount(prefix, atts, seed, read, abort);
    if atts != [] {
      var init := atts[..|atts| - 1];
      PassContents(prefix, init, seed, read, abort);
      PassCount(prefix, init, seed, read, abort);
      var p := AttachPass(prefix, init, seed, read, abort);
      var a := atts[|atts| - 1];
      var rs0, rs := Readables(init), Readables(atts);
      assert rs[..|rs0|] == rs0;
      if p.failure.None? && a.readable {
        var q := AttachPass(prefix, atts, seed, read, abort);
        assert rs == rs0 + [a];
        ResolveIsVariant(a.filename, p.registry);
        forall k | 0 <= k < |q.entries|
          ensures q.entries[k].content == Written(read(rs[k].diskfile))
          ensures IsVariant(q.registry[|seed| + k], rs[k].filename)
        {
          if k < |p.entries| {
            assert q.entries[k] == p.entries[k];
            assert q.registry[|seed| + k] == p.registry[|seed| + k];
            assert rs[k] == rs0[k];
          }
        }
      }
    }
  }

  /**
   * The loop stops exactly at a failed read and reports that attachment: a
   * reported failure belongs to the last entry written, and with `abort` the
   * loop ends without failure exactly when every readable attachment was read.
   */
  lemma {:induction false} PassFailure(prefix: string, atts: seq<Attachment>, seed: seq<string>, read: Reader, abort: bool)
    requires NamesOk(atts)
    ensures var p := AttachPass(prefix, atts, seed, read, abort);
      var rs := Readables(atts);
      && |p.entries| <= |rs|
      && (p.failure.Some? ==>
            0 < |p.entries| &&
            read(rs[|p.entries| - 1].diskfile) == ReadFailed(p.failure.value.message) &&
            p.failure.value.filename == rs[|p.entries| - 1].filename)
      && (abort ==> (p.failure.None? <==> forall k :: 0 <= k < |rs| ==> read(rs[k].diskfile).Read?))
  {
    PassCount(prefix, atts, seed, read, abort);
    if atts != [] {
      var init := atts[..|atts| - 1];
      PassFailure(prefix, init, seed, read, abort);
      PassCount(prefix, init, seed, read, abort);
      var p := AttachPass(prefix, init, seed, read, abort);
      var a := atts[|atts| - 1];
      var rs0, rs := Readables(init), Readables(atts);
      assert rs[..|rs0|] == rs0;
      if p.failure.Some? {
        assert rs[|p.entries| - 1] == rs0[|p.entries| - 1];
      } else if a.readable {
        assert rs == rs0 + [a];
      }
    }
  }

  /** With `abort`, every read before the one that stopped the loop succeeded. */
  lemma {:induction false} PassReadsBefore(prefix: string, atts: seq<Attachment>, seed: seq<string>, read: Reader)
    requires NamesOk(atts)
    ensures var p := AttachPass(prefix, atts, seed, read, true);
      var rs := Readables(atts);
      && |p.entries| <= |rs|
      && forall k :: 0 <= k < |p.entries| && (p.failure.None? || k < |p.entries| - 1) ==> read(rs[k].diskfile).Read?
  {
    PassCount(prefix, atts, seed, read, true);
    if atts != [] {
      var init := atts[..|atts| - 1];
      PassReadsBefore(prefix, init, seed, read);
      PassCount(prefix, init, seed, read, true);
      var p0 := AttachPass(prefix, init, seed, read, true);
      var a := atts[|atts| - 1];
      var rs0, rs := Readables(init), Readables(atts);
      assert rs[..|rs0|] == rs0;
      forall k | 0 <= k < |p0.entries| ensures rs[k] == rs0[k] {
        assert rs[..|rs0|][k] == rs0[k];
      }
      if p0.failure.None? && a.readable {
        assert rs[|rs0|] == a;
      }
    }
  }

  /** Once the loop has stopped on a failure, later attachments change nothing. */
  lemma {:induction false} PassStopped(prefix: string, atts: seq<Attachment>, seed: seq<string>, read: Reader, abort: bool, j: nat)
    requires NamesOk(atts) && j <= |atts|
    requires AttachPass(prefix, atts[..j], seed, read, abort).failure.Some?
    ensures AttachPass(prefix, atts, seed, read, abort) == AttachPass(prefix, atts[..j], seed, read, abort)
    decreases |atts|
  {
    if j < |atts| {
      var init := atts[..|atts| - 1];
      assert init[..j] == atts[..j];
      PassStopped(prefix, init, seed, read, abort, j);
    } else {
      assert atts[..j] == atts;
    }
  }

  /**
   * An unreadable attachment is skipped without a trace: removing it from the
   * list, wherever it stands, leaves the entries and the registry unchanged.
   */
  lemma {:induction false} UnreadableSkipped(prefix: string, before: seq<Attachment>, u: Attachment, after: seq<Attachment>, seed: seq<string>, read: Reader, abort: bool)
    requires !u.readable
    requires NamesOk(before + [u] + after) && NamesOk(before + after)
    ensures AttachPass(prefix, before + [u] + after, seed, read, abort) == AttachPass(prefix, before + after, seed, read, abort)
    decreases |after|
  {
    var xs, ys := before + [u] + after, before + after;
    if after == [] {
      assert xs[..|xs| - 1] == before && ys == before;
    } else {
      var init := after[..|after| - 1];
      assert xs[..|xs| - 1] == before + [u] + init;
      assert ys[..|ys| - 1] == before + init;
      UnreadableSkipped(prefix, before, u, init, seed, read, abort);
    }
  }

  /** The filenames of a list of attachments. */
  function Filenames(atts: seq<Attachment>): seq<string> {
    seq(|atts|, i requires 0 <= i < |atts| => atts[i].filename)
  }

  /** A name in neither the seed nor the names registered after it is not in the registry. */
  lemma FreshName(seed: seq<string>, registry: seq<string>, names: seq<string>, x: string)
    requires |seed| <= |registry| <= |seed| + |names|
    requires registry[..|seed|] == seed
    requires forall k :: 0 <= k < |registry| - |seed| ==> registry[|seed| + k] == names[k]
    requires x !in seed && x !in names
    ensures x !in registry
  {
    forall i | 0 <= i < |registry| ensures registry[i] != x {
      if i < |seed| {
        assert registry[..|seed|][i] == seed[i];
      } else {
        assert registry[|seed| + (i - |seed|)] == names[i - |seed|];
      }
    }
  }

  /**
   * Distinct names none of which is in the seed stay so on a prefix, and the
   * name right after the prefix is not among the prefix's names.
   */
  lemma FreshPrefix(rs0: seq<Attachment>, rs: seq<Attachment>, seed: seq<string>)
    requires |rs0| <= |rs| && rs[..|rs0|] == rs0
    requires Distinct(Filenames(rs))
    requires forall k :: 0 <= k < |rs| ==> rs[k].filename !in seed
    ensures Distinct(Filenames(rs0))
    ensures forall k :: 0 <= k < |rs0| ==> rs0[k].filename !in seed
    ensures |rs0| < |rs| ==> rs[|rs0|].filename !in Filenames(rs0)
  {
    forall i, j | 0 <= i < j < |rs0| ensures Filenames(rs0)[i] != Filenames(rs0)[j] {
      assert Filenames(rs)[i] != Filenames(rs)[j];
      assert rs0[i] == rs[i] && rs0[j] == rs[j];
    }
    forall k | 0 <= k < |rs0| ensures rs0[k].filename !in seed {
      assert rs0[k] == rs[k];
    }
    if |rs0| < |rs| {
      forall j | 0 <= j < |rs0| ensures Filenames(rs0)[j] != rs[|rs0|].filename {
        assert Filenames(rs)[j] != Filenames(rs)[|rs0|];
        assert rs0[j] == rs[j];
      }
    }
  }

  /**
   * When the readable attachments' names are pairwise distinct and none is in
   * the seed registry, nothing is renamed: each is registered under its own name.
   */
  lemma {:induction false} PassKeepsFreshNames(prefix: string, atts: seq<Attachment>, seed: seq<string>, read: Reader, abort: bool)
    requires NamesOk(atts)
    requires Distinct(Filenames(Readables(atts)))
    requires forall k :: 0 <= k < |Readables(atts)| ==> Readables(atts)[k].filename !in seed
    ensures var p := AttachPass(prefix, atts, seed, read, abort);
      && |p.registry| == |seed| + |p.entries|
      && |p.entries| <= |Readables(atts)|
      && forall k :: 0 <= k < |p.entries| ==> p.registry[|seed| + k] == Readables(atts)[k].filename
  {
    PassRegistry(prefix, atts, seed, read, abort);
    PassCount(prefix, atts, seed, read, abort);
    if atts != [] {
      var init := atts[..|atts| - 1];
      var a := atts[|atts| - 1];
      var rs0, rs := Readables(init), Readables(atts);
      assert rs[..|rs0|] == rs0;
      FreshPrefix(rs0, rs, seed);
      PassKeepsFreshNames(prefix, init, seed, read, abort);
      PassRegistry(prefix, init, seed, read, abort);
      PassCount(prefix, init, seed, read, abort);
      var p := AttachPass(prefix, init, seed, read, abort);
      if p.failure.None? && a.readable {
        assert rs[|rs0|] == a;
        FreshName(seed, p.registry, Filenames(rs0), a.filename);
        var q := AttachPass(prefix, atts, seed, read, abort);
        assert q.registry == p.registry + [a.filename];
        forall k | 0 <= k < |q.entries| ensures q.registry[|seed| + k] == rs[k].filename {
          if k < |p.entries| {
            assert rs[k] == rs0[k];
          }
        }
      }
    }
  }

  /**
   * A packet is the document entry at `prefix + first` followed by the loop's
   * entries, the registry being seeded with `first`: all of its paths start
   * with `prefix` and no two are equal.
   */
  lemma PacketPaths(prefix: string, first: string, content: Bytes, atts: seq<Attachment>, read: Reader, abort: bool)
    requires NamesOk(atts)
    ensures var es := [Entry(prefix + first, content)] + AttachPass(prefix, atts, [first], read, abort).entries;
      && Distinct(Paths(es))
      && forall k :: 0 <= k < |es| ==> HasPrefix(prefix, es[k].path)
  {
    var p := AttachPass(prefix, atts, [first], read, abort);
    var es := [Entry(prefix + first, content)] + p.entries;
    PassRegistry(prefix, atts, [first], read, abort);
    assert p.registry[0] == p.registry[..1][0] == first;
    forall k | 0 <= k < |es| ensures es[k].path == prefix + p.registry[k] {
      if k > 0 {
        assert es[k] == p.entries[k - 1];
      }
    }
    forall i, j | 0 <= i < j < |es| ensures es[i].path != es[j].path {
      assert (prefix + p.registry[i])[|prefix|..] == p.registry[i];
      assert (prefix + p.registry[j])[|prefix|..] == p.registry[j];
    }
  }
}
