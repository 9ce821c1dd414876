/**
 * PacketCreationService: one issue becomes one archive. The rendered PDF goes
 * first as `ticket_{id}.pdf`, then every readable attachment at the archive
 * root under a name made unique against the names already archived. A failed
 * read is rescued: the loop goes on and an archive is always returned.
 */
module PacketCreation {
  import opened Wrappers
  import opened Archive
  import opened FileNames
  import opened Attachments
  import Decimal

  /** The document entry's name, "ticket_#{issue.id}.pdf". */
  function TicketName(id: nat): string {
    "ticket_" + Decimal.Show(id) + ".pdf"
  }

  /** The entries create_combined_zip writes for an issue with the given PDF and attachments. */
  function CombinedZip(id: nat, pdfContent: Bytes, attachments: seq<Attachment>, read: Reader): seq<Entry>
    requires NamesOk(attachments)
  {
    [Entry(TicketName(id), pdfContent)] + AttachPass("", attachments, [TicketName(id)], read, false).entries
  }

  /** The exception raised by the legacy `create_packet`. */
  datatype PacketError = NotImplemented(message: string)

  /** The legacy entry point: it always raises NotImplementedError and writes nothing. */
  function CreatePacket(issue: Issue): (r: Result<seq<Entry>, PacketError>)
    ensures r.Failure? && r.error.NotImplemented?
  {
    Failure(NotImplemented("Use create_packet_with_pdf instead - PDF generation moved to controller"))
  }

  /**
   * create_combined_zip: write the PDF entry, seed the registry with its name,
   * then run the attachment loop, rescuing failed reads.
   */
  method CreateCombinedZip(id: nat, pdfContent: Bytes, attachments: seq<Attachment>, read: Reader)
    returns (archive: seq<Entry>)
    requires NamesOk(attachments)
    ensures archive == CombinedZip(id, pdfContent, attachments, read)
  {
    var zos := new ArchiveWriter();
    var ticket := TicketName(id);
    zos.PutNextEntry(ticket);
    assert zos.entries == [Entry(ticket, [])];
    zos.Write(pdfContent);
    assert [] + pdfContent == pdfContent;
    assert zos.entries == [Entry(ticket, pdfContent)];
    var archivedFilenames := [ticket];
    ghost var doc := [Entry(ticket, pdfContent)];
    ghost var pass := Pass([], [ticket], None);
    assert attachments[..0] == [];
    for i := 0 to |attachments|
      invariant pass == AttachPass("", attachments[..i], [ticket], read, false)
      invariant pass.failure.None?
      invariant zos.entries == doc + pass.entries
      invariant archivedFilenames == pass.registry
    {
      var attachment := attachments[i];
      if !attachment.readable {
        PassSkips("", attachments, [ticket], read, false, i);
        continue;
      }
      var filename := EnsureUniqueFilename(attachment.filename, archivedFilenames);
      archivedFilenames := archivedFilenames + [filename];
      ghost var before := zos.entries;
      zos.PutNextEntry(filename);
      PassWrites("", attachments, [ticket], read, false, i, filename);
      assert "" + filename == filename;
      ghost var written: Bytes := [];
      match read(attachment.diskfile) {
        case Read(data) =>
          zos.Write(data);
          assert [] + data == data;
          written := data;
        case ReadFailed(_) =>
          // rescued: the failure is logged and the loop moves on
      }
      assert zos.entries == before + [Entry(filename, written)];
      AppendAssoc(doc, pass.entries, [Entry(filename, written)]);
      pass := Pass(pass.entries + [Entry(filename, written)], archivedFilenames, None);
    }
    assert attachments[..|attachments|] == attachments;
    archive := zos.entries;
  }

  /** create_packet_with_pdf: the combined archive for the issue's own attachments. */
  method CreatePacketWithPdf(issue: Issue, pdfContent: Bytes, read: Reader) returns (archive: seq<Entry>)
    requires NamesOk(issue.attachments)
    ensures archive == CombinedZip(issue.id, pdfContent, issue.attachments, read)
  {
    archive := CreateCombinedZip(issue.id, pdfContent, issue.attachments, read);
  }

  /**
   * The shape of a single packet: the PDF entry comes first, then exactly one
   * entry per readable attachment, in attachment order, each holding that
   * file's bytes (nothing if its read failed) under its own name or a
   * disambiguated form of it; and no two entries share a path.
   */
  lemma CombinedZipShape(id: nat, pdfContent: Bytes, attachments: seq<Attachment>, read: Reader)
    requires NamesOk(attachments)
    ensures var archive := CombinedZip(id, pdfContent, attachments, read);
      var rs := Readables(attachments);
      && archive[0] == Entry(TicketName(id), pdfContent)
      && |archive| == 1 + |rs|
      && (forall k :: 0 <= k < |rs| ==>
            archive[k + 1].content == Written(read(rs[k].diskfile)) &&
            IsVariant(archive[k + 1].path, rs[k].filename))
      && Distinct(Paths(archive))
  {
    var ticket := TicketName(id);
    PassRegistry("", attachments, [ticket], read, false);
    PassCount("", attachments, [ticket], read, false);
    PassContents("", attachments, [ticket], read, false);
    PacketPaths("", ticket, pdfContent, attachments, read, false);
    assert "" + ticket == ticket;
  }

  /** With no readable attachment (in particular none at all) the packet is the PDF entry alone. */
  lemma OnlyDocument(id: nat, pdfContent: Bytes, attachments: seq<Attachment>, read: Reader)
    requires NamesOk(attachments)
    requires Readables(attachments) == []
    ensures CombinedZip(id, pdfContent, attachments, read) == [Entry(TicketName(id), pdfContent)]
  {
    PassCount("", attachments, [TicketName(id)], read, false);
  }

  /**
   * A failed read does not stop the packet: every readable attachment after it
   * still gets its entry, and the failed one keeps the entry opened for it,
   * empty, under the name registered for it.
   */
  lemma ReadFailureRescued(id: nat, pdfContent: Bytes, attachments: seq<Attachment>, read: Reader, k: nat)
    requires NamesOk(attachments)
    requires k < |Readables(attachments)| && read(Readables(attachments)[k].diskfile).ReadFailed?
    ensures var archive := CombinedZip(id, pdfContent, attachments, read);
      && |archive| == 1 + |Readables(attachments)|
      && archive[k + 1].content == []
      && IsVariant(archive[k + 1].path, Readables(attachments)[k].filename)
  {
    CombinedZipShape(id, pdfContent, attachments, read);
  }

  /** Skipping an unreadable attachment: the packet is the same as without it. */
  lemma UnreadableLeavesNoTrace(id: nat, pdfContent: Bytes, before: seq<Attachment>, u: Attachment, after: seq<Attachment>, read: Reader)
    requires !u.readable
    requires NamesOk(before + [u] + after) && NamesOk(before + after)
    ensures CombinedZip(id, pdfContent, before + [u] + after, read) == CombinedZip(id, pdfContent, before + after, read)
  {
    UnreadableSkipped("", before, u, after, [TicketName(id)], read, false);
  }
}
