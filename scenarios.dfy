/**
 * The service tests' concrete cases, stated as lemmas about the model.
 */
module Scenarios {
  import opened Wrappers
  import opened FileNames
  import opened Archive
  import opened Attachments
  import opened PacketCreation
  import Decimal

  lemma CounterDigits()
    ensures Decimal.Show(1) == "1" && Decimal.Show(2) == "2" && Decimal.Show(3) == "3"
  {
  }

  /** A free name is kept as it is. */
  lemma UniqueFilenameFree()
    ensures Resolve("test.txt", []) == "test.txt"
    ensures Resolve("test.pdf", []) == "test.pdf"
  {
  }

  /** test.txt splits into the stem test and the extension .txt. */
  lemma TestTxtParts()
    ensures PlainName("test.txt") && Stem("test.txt") == "test" && ExtName("test.txt") == ".txt"
  {
    SplitAt("test.txt", 4);
    assert "test.txt"[4..] == ".txt" && "test.txt"[..4] == "test";
  }

  /** A taken name gets the counter 1 before its extension. */
  lemma UniqueFilenameFirst()
    ensures Resolve("test.txt", ["test.txt"]) == "test(1).txt"
  {
    TestTxtParts();
    CounterDigits();
    assert DupName("test", ".txt", 1) == "test(1).txt";
    ResolveAt("test.txt", ["test.txt"], 1);
  }

  /** With test.txt, test(1).txt and test(2).txt taken, the counter goes on to 3. */
  lemma UniqueFilenameThird()
    ensures Resolve("test.txt", ["test.txt", "test(1).txt", "test(2).txt"]) == "test(3).txt"
  {
    TestTxtParts();
    CounterDigits();
    var e := ["test.txt", "test(1).txt", "test(2).txt"];
    assert DupName("test", ".txt", 1) == e[1];
    assert DupName("test", ".txt", 2) == e[2];
    forall m | 1 <= m < 3 ensures DupName("test", ".txt", m) in e {
      if m == 1 {
        assert DupName("test", ".txt", m) == e[1];
      } else {
        assert DupName("test", ".txt", m) == e[2];
      }
    }
    var r := DupName("test", ".txt", 3);
    assert r == "test(3).txt";
    assert r !in e by {
      assert r[5] == '3' && e[0][5] != '3' && e[1][5] != '3' && e[2][5] != '3';
    }
    ResolveAt("test.txt", e, 3);
  }

  /** A name without an extension gets the counter at its end. */
  lemma UniqueFilenameNoExtension()
    ensures Resolve("README", ["README"]) == "README(1)"
  {
    SplitAt("README", 6);
    CounterDigits();
    assert "README"[6..] == "" && "README"[..6] == "README";
    assert DupName("README", "", 1) == "README(1)";
    ResolveAt("README", ["README"], 1);
  }

  /** Only the last extension is kept after the counter. */
  lemma UniqueFilenameDoubleExtension()
    ensures Resolve("test.tar.gz", ["test.tar.gz"]) == "test.tar(1).gz"
  {
    SplitAt("test.tar.gz", 8);
    CounterDigits();
    assert "test.tar.gz"[8..] == ".gz" && "test.tar.gz"[..8] == "test.tar";
    assert DupName("test.tar", ".gz", 1) == "test.tar(1).gz";
    ResolveAt("test.tar.gz", ["test.tar.gz"], 1);
  }

  /** test.pdf splits into the stem test and the extension .pdf. */
  lemma TestPdfParts()
    ensures PlainName("test.pdf") && Stem("test.pdf") == "test" && ExtName("test.pdf") == ".pdf"
  {
    SplitAt("test.pdf", 4);
    assert "test.pdf"[4..] == ".pdf" && "test.pdf"[..4] == "test";
  }

  /** With test.pdf and test(1).pdf taken, test(2).pdf is chosen. */
  lemma UniqueFilenameSecond()
    ensures Resolve("test.pdf", ["test.pdf", "test(1).pdf"]) == "test(2).pdf"
  {
    TestPdfParts();
    CounterDigits();
    var e := ["test.pdf", "test(1).pdf"];
    assert DupName("test", ".pdf", 1) == e[1];
    forall m | 1 <= m < 2 ensures DupName("test", ".pdf", m) in e {
      assert DupName("test", ".pdf", m) == e[1];
    }
    var r := DupName("test", ".pdf", 2);
    assert r == "test(2).pdf";
    assert r !in e by {
      assert r[5] == '2' && e[0][5] != '2' && e[1][5] != '2';
    }
    ResolveAt("test.pdf", e, 2);
  }

  // ---------------------------------------------------------------- proof helpers
  // Sequence identities stated once, so that the duplicate-name proofs below
  // need not rediscover them inside larger goals.

  lemma EmptyPrefix(s: string)
    ensures "" + s == s
  {
  }

  lemma ThreeAttachments(a1: Attachment, a2: Attachment, a3: Attachment)
    ensures [a1, a2, a3] == [] + [a1] + [a2] + [a3]
  {
  }

  lemma FourEntries(e0: Entry, e1: Entry, e2: Entry, e3: Entry)
    ensures [e0] + ([] + [e1] + [e2] + [e3]) == [e0, e1, e2, e3]
  {
  }

  // ---------------------------------------------------------------- duplicate names

  /** The names a third attachment sharing `n` runs through: `n`, `base(1)ext`, `base(2)ext`. */
  lemma SameNameResolves(t: string, n: string)
    requires PlainName(n) && n != t
    requires DupName(Stem(n), ExtName(n), 1) != t && DupName(Stem(n), ExtName(n), 2) != t
    ensures var d1, d2 := DupName(Stem(n), ExtName(n), 1), DupName(Stem(n), ExtName(n), 2);
      && Resolve(n, [t]) == n
      && Resolve(n, [t] + [n]) == d1
      && Resolve(n, [t] + [n] + [d1]) == d2
  {
    var d1, d2 := DupName(Stem(n), ExtName(n), 1), DupName(Stem(n), ExtName(n), 2);
    assert |d1| == |Stem(n)| + 3 + |ExtName(n)| == |d2|;
    SplitName(n);
    DupNameInjective(Stem(n), ExtName(n), 1, 2);
    ResolveAt(n, [t] + [n], 1);
    ResolveAt(n, [t] + [n] + [d1], 2);
  }

  /**
   * Three readable attachments sharing one name `n` (not the document's name,
   * and neither of its first two renamings is either): the packet holds the
   * document, then `n`, `base(1)ext` and `base(2)ext` with the three files'
   * bytes, in attachment order.
   */
  lemma SameNamePacket(id: nat, pdf: Bytes, n: string, f1: string, f2: string, f3: string,
                       c1: Bytes, c2: Bytes, c3: Bytes, read: Reader)
    requires PlainName(n) && n != TicketName(id)
    requires DupName(Stem(n), ExtName(n), 1) != TicketName(id) && DupName(Stem(n), ExtName(n), 2) != TicketName(id)
    requires read(f1) == Read(c1) && read(f2) == Read(c2) && read(f3) == Read(c3)
    ensures var atts := [Attachment(n, f1, true), Attachment(n, f2, true), Attachment(n, f3, true)];
      && NamesOk(atts)
      && CombinedZip(id, pdf, atts, read) ==
           [Entry(TicketName(id), pdf), Entry(n, c1), Entry(DupName(Stem(n), ExtName(n), 1), c2), Entry(DupName(Stem(n), ExtName(n), 2), c3)]
  {
    var a1, a2, a3 := Attachment(n, f1, true), Attachment(n, f2, true), Attachment(n, f3, true);
    var t := TicketName(id);
    var d1, d2 := DupName(Stem(n), ExtName(n), 1), DupName(Stem(n), ExtName(n), 2);
    SameNameResolves(t, n);
    EmptyPrefix(n);
    EmptyPrefix(d1);
    EmptyPrefix(d2);
    ThreeAttachments(a1, a2, a3);
    PassAppend("", [], a1, [t], read, false, n);
    PassAppend("", [] + [a1], a2, [t], read, false, d1);
    PassAppend("", [] + [a1] + [a2], a3, [t], read, false, d2);
    FourEntries(Entry(t, pdf), Entry(n, c1), Entry(d1, c2), Entry(d2, c3));
  }

  /**
   * Issue 1 with three readable attachments named duplicate.txt: the packet is
   * ticket_1.pdf, duplicate.txt, duplicate(1).txt and duplicate(2).txt, the
   * latter three holding the files' bytes in attachment order.
   */
  lemma DuplicateNamesPacket(pdf: Bytes, c1: Bytes, c2: Bytes, c3: Bytes, read: Reader)
    requires read("f1") == Read(c1) && read("f2") == Read(c2) && read("f3") == Read(c3)
    ensures var n := "duplicate.txt";
      var atts := [Attachment(n, "f1", true), Attachment(n, "f2", true), Attachment(n, "f3", true)];
      && NamesOk(atts)
      && CombinedZip(1, pdf, atts, read) ==
           [Entry("ticket_1.pdf", pdf), Entry(n, c1), Entry("duplicate(1).txt", c2), Entry("duplicate(2).txt", c3)]
  {
    var n := "duplicate.txt";
    DuplicateTxtRenamings();
    TicketOneApart();
    SameNamePacket(1, pdf, n, "f1", "f2", "f3", c1, c2, c3, read);
  }

  /** duplicate.txt holds neither a `/` nor a NUL. */
  lemma DuplicateTxtPlain()
    ensures PlainName("duplicate.txt")
  {
  }

  /** duplicate.txt is renamed to duplicate(1).txt, then to duplicate(2).txt. */
  lemma DuplicateTxtRenamings()
    ensures var n := "duplicate.txt";
      && PlainName(n)
      && DupName(Stem(n), ExtName(n), 1) == "duplicate(1).txt"
      && DupName(Stem(n), ExtName(n), 2) == "duplicate(2).txt"
  {
    var n := "duplicate.txt";
    DuplicateTxtPlain();
    SplitAt(n, 9);
    CounterDigits();
    assert n[9..] == ".txt" && n[..9] == "duplicate";
    assert DupName("duplicate", ".txt", 1) == "duplicate(1).txt";
    assert DupName("duplicate", ".txt", 2) == "duplicate(2).txt";
  }

  /** ticket_1.pdf is none of the three names the duplicates take. */
  lemma TicketOneApart()
    ensures TicketName(1) == "ticket_1.pdf"
    ensures "ticket_1.pdf" !in ["duplicate.txt", "duplicate(1).txt", "duplicate(2).txt"]
  {
    CounterDigits();
    var t := "ticket_1.pdf";
    assert t[0] == 't';
    assert "duplicate.txt"[0] != 't' && "duplicate(1).txt"[0] != 't' && "duplicate(2).txt"[0] != 't';
  }
}
