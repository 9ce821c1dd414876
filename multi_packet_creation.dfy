/**
 * MultiPacketCreationService: several issues become one archive. Inputs are
 * validated first (a non-empty list; per issue, in order, view permission and
 * a rendered PDF). Then each issue is written under its own directory
 * `packet_{id}/` with a registry of its own. Any attachment failure re-raises
 * and the whole batch yields no archive.
 */
module MultiPacketCreation {
  import opened Wrappers
  import opened Archive
  import opened FileNames
  import opened Attachments
  import opened PacketCreation
  import Decimal

  /** The exceptions the batch raises: ArgumentError for an empty list, RuntimeError for the rest. */
  datatype BatchError =
    | NoIssuesProvided
    | PermissionDenied(issueId: nat)
    | MissingPdfContent(issueId: nat)
    | AttachmentFailed(filename: string, issueId: nat, message: string)

  /** The rendered PDFs by issue id; a missing key (or a nil value) means no content. */
  type PdfContents = map<nat, Bytes>

  /** `User.current.allowed_to?(:view_issues, project)`, by project id. */
  type ViewPermission = nat -> bool

  predicate AllNamesOk(issues: seq<Issue>) {
    forall i :: 0 <= i < |issues| ==> NamesOk(issues[i].attachments)
  }

  /** The issue's directory, "packet_#{issue.id}". */
  function PacketDir(id: nat): string {
    "packet_" + Decimal.Show(id)
  }

  /** The issue's document entry, "#{packet_dir}/ticket_#{issue.id}.pdf". */
  function DocPath(id: nat): string {
    PacketDir(id) + "/" + TicketName(id)
  }

  // ---------------------------------------------------------------- validation

  /** The error validation raises for one issue, if any: permission first, then PDF content. */
  function IssueError(issue: Issue, pdfs: PdfContents, canView: ViewPermission): Option<BatchError> {
    if !canView(issue.projectId) then Some(PermissionDenied(issue.id))
    else if issue.id !in pdfs then Some(MissingPdfContent(issue.id))
    else None
  }

  /** The error of the first issue, in order, that fails a check. */
  function FirstInvalid(issues: seq<Issue>, pdfs: PdfContents, canView: ViewPermission): Option<BatchError> {
    if issues == [] then None
    else if IssueError(issues[0], pdfs, canView).Some? then IssueError(issues[0], pdfs, canView)
    else FirstInvalid(issues[1..], pdfs, canView)
  }

  /** What validate_inputs raises, if anything. */
  function ValidationError(issues: seq<Issue>, pdfs: PdfContents, canView: ViewPermission): Option<BatchError> {
    if issues == [] then Some(NoIssuesProvided) else FirstInvalid(issues, pdfs, canView)
  }

  /** validate_inputs: reject an empty list, then check the issues one by one, stopping at the first failure. */
  method ValidateInputs(issues: seq<Issue>, pdfContentsByIssueId: PdfContents, canView: ViewPermission)
    returns (err: Option<BatchError>)
    ensures err == ValidationError(issues, pdfContentsByIssueId, canView)
  {
    if |issues| == 0 {
      return Some(NoIssuesProvided);
    }
    for i := 0 to |issues|
      invariant FirstInvalid(issues[i..], pdfContentsByIssueId, canView) == FirstInvalid(issues, pdfContentsByIssueId, canView)
    {
      var issue := issues[i];
      if !canView(issue.projectId) {
        return Some(PermissionDenied(issue.id));
      }
      if issue.id !in pdfContentsByIssueId {
        return Some(MissingPdfContent(issue.id));
      }
      assert issues[i..][1..] == issues[i + 1..];
    }
    return None;
  }

  /** Validation passes exactly when the list is non-empty and every issue passes both checks. */
  lemma {:induction false} ValidationAccepts(issues: seq<Issue>, pdfs: PdfContents, canView: ViewPermission)
    ensures ValidationError(issues, pdfs, canView).None? <==>
      |issues| > 0 && forall i :: 0 <= i < |issues| ==> canView(issues[i].projectId) && issues[i].id in pdfs
  {
    FirstInvalidNone(issues, pdfs, canView);
  }

  lemma {:induction false} FirstInvalidNone(issues: seq<Issue>, pdfs: PdfContents, canView: ViewPermission)
    ensures FirstInvalid(issues, pdfs, canView).None? <==>
      forall i :: 0 <= i < |issues| ==> IssueError(issues[i], pdfs, canView).None?
  {
    if issues != [] {
      FirstInvalidNone(issues[1..], pdfs, canView);
      assert forall i :: 1 <= i < |issues| ==> issues[i] == issues[1..][i - 1];
    }
  }

  /** The first offending issue decides the error: the one for its failed check, naming it. */
  lemma {:induction false} ValidationFirstOffender(issues: seq<Issue>, pdfs: PdfContents, canView: ViewPermission, i: nat)
    requires i < |issues|
    requires forall j :: 0 <= j < i ==> canView(issues[j].projectId) && issues[j].id in pdfs
    requires !canView(issues[i].projectId) || issues[i].id !in pdfs
    ensures ValidationError(issues, pdfs, canView) ==
      if !canView(issues[i].projectId) then Some(PermissionDenied(issues[i].id))
      else Some(MissingPdfContent(issues[i].id))
    decreases i
  {
    if i > 0 {
      assert forall j :: 0 <= j < i - 1 ==> issues[1..][j] == issues[j + 1];
      ValidationFirstOffender(issues[1..], pdfs, canView, i - 1);
    }
  }

  // ---------------------------------------------------------------- writing

  /** The entries written so far and the error that stopped the writing, if any. */
  datatype Output = Output(entries: seq<Entry>, failure: Option<BatchError>)

  /**
   * create_issue_packet_in_zip: the document at `packet_{id}/ticket_{id}.pdf`,
   * then the attachment loop under `packet_{id}/` with a fresh registry seeded
   * with the unprefixed `ticket_{id}.pdf`, stopping at a failed read.
   */
  function IssuePacket(issue: Issue, pdfContent: Bytes, read: Reader): Output
    requires NamesOk(issue.attachments)
  {
    var p := AttachPass(PacketDir(issue.id) + "/", issue.attachments, [TicketName(issue.id)], read, true);
    Output([Entry(DocPath(issue.id), pdfContent)] + p.entries,
      match p.failure
      case None => None
      case Some(f) => Some(AttachmentFailed(f.filename, issue.id, f.message)))
  }

  /** The loop of create_multi_packet_with_pdfs over the issues, in order, stopping at the first error. */
  function WriteIssues(issues: seq<Issue>, pdfs: PdfContents, read: Reader): Output
    requires AllNamesOk(issues)
  {
    if issues == [] then Output([], None)
    else
      var w := WriteIssues(issues[..|issues| - 1], pdfs, read);
      var issue := issues[|issues| - 1];
      if w.failure.Some? then w
      else if issue.id !in pdfs then Output(w.entries, Some(MissingPdfContent(issue.id)))
      else
        var p := IssuePacket(issue, pdfs[issue.id], read);
        Output(w.entries + p.entries, p.failure)
  }

  /** create_multi_packet_with_pdfs: the archive's entries, or the error raised. */
  function MultiPacket(issues: seq<Issue>, pdfs: PdfContents, canView: ViewPermission, read: Reader): Result<seq<Entry>, BatchError>
    requires AllNamesOk(issues)
  {
    match ValidationError(issues, pdfs, canView)
    case Some(e) => Failure(e)
    case None =>
      var w := WriteIssues(issues, pdfs, read);
      if w.failure.Some? then Failure(w.failure.value) else Success(w.entries)
  }

  /** Writes one issue's packet into the shared stream; a failed read is re-raised naming the attachment and the issue. */
  method CreateIssuePacketInZip(zos: ArchiveWriter, issue: Issue, pdfContent: Bytes, read: Reader)
    returns (err: Option<BatchError>)
    requires NamesOk(issue.attachments)
    modifies zos
    ensures zos.entries == old(zos.entries) + IssuePacket(issue, pdfContent, read).entries
    ensures err == IssuePacket(issue, pdfContent, read).failure
  {
    var packetDir := PacketDir(issue.id);
    var archivedFilenames: seq<string> := [];
    var pdfFilename := packetDir + "/" + TicketName(issue.id);
    ghost var start := zos.entries;
    zos.PutNextEntry(pdfFilename);
    zos.Write(pdfContent);
    assert [] + pdfContent == pdfContent;
    ghost var doc := [Entry(pdfFilename, pdfContent)];
    assert zos.entries == start + doc;
    archivedFilenames := archivedFilenames + [TicketName(issue.id)];
    ghost var head := zos.entries;
    ghost var prefix, seed := packetDir + "/", [TicketName(issue.id)];
    ghost var pass := Pass([], seed, None);
    var atts := issue.attachments;
    assert atts[..0] == [];
    for i := 0 to |atts|
      invariant pass == AttachPass(prefix, atts[..i], seed, read, true)
      invariant pass.failure.None?
      invariant zos.entries == head + pass.entries
      invariant archivedFilenames == pass.registry
    {
      var attachment := atts[i];
      if !attachment.readable {
        PassSkips(prefix, atts, seed, read, true, i);
        continue;
      }
      var filename := EnsureUniqueFilename(attachment.filename, archivedFilenames);
      archivedFilenames := archivedFilenames + [filename];
      ghost var before := zos.entries;
      zos.PutNextEntry(packetDir + "/" + filename);
      match read(attachment.diskfile) {
        case Read(data) =>
          zos.Write(data);
          assert [] + data == data;
          assert zos.entries == before + [Entry(prefix + filename, data)];
          PassWrites(prefix, atts, seed, read, true, i, filename);
          pass := Pass(pass.entries + [Entry(prefix + filename, data)], archivedFilenames, None);
        case ReadFailed(message) =>
          // logged, then re-raised naming the attachment and the issue
          err := Some(AttachmentFailed(attachment.filename, issue.id, message));
          IssuePacketFailsAt(issue, pdfContent, read, i, pass, filename, message);
          AppendAssoc(start, doc, pass.entries);
          AppendAssoc(start, doc + pass.entries, [Entry(prefix + filename, [])]);
          return;
      }
    }
    IssuePacketCompletes(issue, pdfContent, read, pass);
    AppendAssoc(start, doc, pass.entries);
    return None;
  }

  /** An issue packet whose loop stopped after `j` attachments is what was written up to there. */
  lemma IssuePacketStopped(issue: Issue, pdfContent: Bytes, read: Reader, j: nat)
    requires NamesOk(issue.attachments) && j <= |issue.attachments|
    requires AttachPass(PacketDir(issue.id) + "/", issue.attachments[..j], [TicketName(issue.id)], read, true).failure.Some?
    ensures var p := AttachPass(PacketDir(issue.id) + "/", issue.attachments[..j], [TicketName(issue.id)], read, true);
      && IssuePacket(issue, pdfContent, read).entries == [Entry(DocPath(issue.id), pdfContent)] + p.entries
      && IssuePacket(issue, pdfContent, read).failure ==
           Some(AttachmentFailed(p.failure.value.filename, issue.id, p.failure.value.message))
  {
    PassStopped(PacketDir(issue.id) + "/", issue.attachments, [TicketName(issue.id)], read, true, j);
  }

  /** A packet whose every read succeeded is the document followed by the pass's entries. */
  lemma IssuePacketCompletes(issue: Issue, pdfContent: Bytes, read: Reader, p: Pass)
    requires NamesOk(issue.attachments)
    requires p == AttachPass(PacketDir(issue.id) + "/", issue.attachments[..|issue.attachments|], [TicketName(issue.id)], read, true)
    requires p.failure.None?
    ensures IssuePacket(issue, pdfContent, read) == Output([Entry(DocPath(issue.id), pdfContent)] + p.entries, None)
  {
    assert issue.attachments[..|issue.attachments|] == issue.attachments;
  }

  /** A failed read of readable attachment `i` ends the packet with that attachment's empty entry. */
  lemma IssuePacketFailsAt(issue: Issue, pdfContent: Bytes, read: Reader, i: nat, p: Pass, name: string, message: string)
    requires NamesOk(issue.attachments) && i < |issue.attachments|
    requires p == AttachPass(PacketDir(issue.id) + "/", issue.attachments[..i], [TicketName(issue.id)], read, true)
    requires p.failure.None? && issue.attachments[i].readable
    requires name == Resolve(issue.attachments[i].filename, p.registry)
    requires read(issue.attachments[i].diskfile) == ReadFailed(message)
    ensures IssuePacket(issue, pdfContent, read) ==
      Output([Entry(DocPath(issue.id), pdfContent)] + p.entries + [Entry(PacketDir(issue.id) + "/" + name, [])],
        Some(AttachmentFailed(issue.attachments[i].filename, issue.id, message)))
  {
    PassNext(PacketDir(issue.id) + "/", issue.attachments, [TicketName(issue.id)], read, true, i);
    IssuePacketStopped(issue, pdfContent, read, i + 1);
  }

  /** The loop after issue i, in terms of the loop before it. */
  lemma WriteNext(issues: seq<Issue>, pdfs: PdfContents, read: Reader, i: nat)
    requires AllNamesOk(issues) && i < |issues|
    ensures AllNamesOk(issues[..i]) && AllNamesOk(issues[..i + 1])
    ensures var w, issue := WriteIssues(issues[..i], pdfs, read), issues[i];
      WriteIssues(issues[..i + 1], pdfs, read) ==
        if w.failure.Some? then w
        else if issue.id !in pdfs then Output(w.entries, Some(MissingPdfContent(issue.id)))
        else
          var p := IssuePacket(issue, pdfs[issue.id], read);
          Output(w.entries + p.entries, p.failure)
  {
    assert issues[..i + 1][..i] == issues[..i];
    assert forall j :: 0 <= j < i + 1 ==> issues[..i + 1][j] == issues[j];
  }

  /** Once an issue has failed, the issues after it are not written. */
  lemma {:induction false} WriteStopped(issues: seq<Issue>, pdfs: PdfContents, read: Reader, j: nat)
    requires AllNamesOk(issues) && j <= |issues|
    requires WriteIssues(issues[..j], pdfs, read).failure.Some?
    ensures WriteIssues(issues, pdfs, read) == WriteIssues(issues[..j], pdfs, read)
    decreases |issues|
  {
    if j < |issues| {
      var init := issues[..|issues| - 1];
      assert init[..j] == issues[..j];
      WriteStopped(init, pdfs, read, j);
    } else {
      assert issues[..j] == issues;
    }
  }

  /**
   * create_multi_packet_with_pdfs: validate, then write every issue's packet
   * into one stream in input order; any error yields no archive.
   */
  method CreateMultiPacketWithPdfs(issues: seq<Issue>, pdfContentsByIssueId: PdfContents, canView: ViewPermission, read: Reader)
    returns (r: Result<seq<Entry>, BatchError>)
    requires AllNamesOk(issues)
    ensures r == MultiPacket(issues, pdfContentsByIssueId, canView, read)
  {
    var invalid := ValidateInputs(issues, pdfContentsByIssueId, canView);
    if invalid.Some? {
      return Failure(invalid.value);
    }
    var zos := new ArchiveWriter();
    assert issues[..0] == [];
    for i := 0 to |issues|
      invariant WriteIssues(issues[..i], pdfContentsByIssueId, read) == Output(zos.entries, None)
    {
      var issue := issues[i];
      WriteNext(issues, pdfContentsByIssueId, read, i);
      if issue.id !in pdfContentsByIssueId {
        WriteStopped(issues, pdfContentsByIssueId, read, i + 1);
        return Failure(MissingPdfContent(issue.id));
      }
      var pdfContent := pdfContentsByIssueId[issue.id];
      var err := CreateIssuePacketInZip(zos, issue, pdfContent, read);
      if err.Some? {
        WriteStopped(issues, pdfContentsByIssueId, read, i + 1);
        return Failure(err.value);
      }
    }
    assert issues[..|issues|] == issues;
    return Success(zos.entries);
  }

  // ---------------------------------------------------------------- properties

  /** Every issue of the list has a rendered PDF. */
  predicate AllHavePdf(issues: seq<Issue>, pdfs: PdfContents) {
    forall i :: 0 <= i < |issues| ==> issues[i].id in pdfs
  }

  /** No two issues of the list share an id. */
  predicate DistinctIds(issues: seq<Issue>) {
    forall i, j :: 0 <= i < j < |issues| ==> issues[i].id != issues[j].id
  }

  /** Every read of a readable attachment of every issue succeeds. */
  ghost predicate AllReadsSucceed(issues: seq<Issue>, read: Reader) {
    forall i, k :: 0 <= i < |issues| && 0 <= k < |Readables(issues[i].attachments)| ==>
      read(Readables(issues[i].attachments)[k].diskfile).Read?
  }

  /** A path under `packet_{x}/` holds the digits x at index 7, followed by the '/'. */
  lemma DirDigits(x: string, s: string)
    requires HasPrefix("packet_" + x + "/", s)
    ensures 7 + |x| < |s| && s[7..7 + |x|] == x && s[7 + |x|] == '/'
  {
    var d := "packet_" + x + "/";
    assert |d| == 8 + |x|;
    assert d[7..7 + |x|] == x && d[7 + |x|] == '/';
    assert s[..|d|] == d;
    assert s[7..7 + |x|] == s[..|d|][7..7 + |x|];
    assert s[7 + |x|] == s[..|d|][7 + |x|];
  }

  /** Two packet directories can only both start a path when they belong to the same issue. */
  lemma PacketDirsDisjoint(a: nat, b: nat, s: string)
    requires HasPrefix(PacketDir(a) + "/", s) && HasPrefix(PacketDir(b) + "/", s)
    ensures a == b
  {
    var x, y := Decimal.Show(a), Decimal.Show(b);
    DirDigits(x, s);
    DirDigits(y, s);
    Decimal.RunLength(s, 7, x);
    Decimal.RunLength(s, 7, y);
    Decimal.ShowInjective(a, b);
  }

  /**
   * The shape of one issue's packet in the batch archive: its document first,
   * then one entry per readable attachment up to the failed read if there is
   * one, each holding that file's bytes under the packet directory with the
   * file's own name or a disambiguated form of it.
   */
  lemma IssuePacketShape(issue: Issue, pdfContent: Bytes, read: Reader)
    requires NamesOk(issue.attachments)
    ensures var o := IssuePacket(issue, pdfContent, read);
      var rs := Readables(issue.attachments);
      var dir := PacketDir(issue.id) + "/";
      && 1 <= |o.entries| <= 1 + |rs|
      && o.entries[0] == Entry(DocPath(issue.id), pdfContent)
      && (o.failure.None? ==> |o.entries| == 1 + |rs|)
      && forall k :: 0 <= k < |o.entries| - 1 ==>
           o.entries[k + 1].content == Written(read(rs[k].diskfile)) &&
           HasPrefix(dir, o.entries[k + 1].path) &&
           IsVariant(o.entries[k + 1].path[|dir|..], rs[k].filename)
  {
    var dir, seed, atts := PacketDir(issue.id) + "/", [TicketName(issue.id)], issue.attachments;
    PassRegistry(dir, atts, seed, read, true);
    PassCount(dir, atts, seed, read, true);
    PassContents(dir, atts, seed, read, true);
    var p := AttachPass(dir, atts, seed, read, true);
    var rs := Readables(atts);
    var doc := Entry(DocPath(issue.id), pdfContent);
    var es := [doc] + p.entries;
    assert IssuePacket(issue, pdfContent, read).entries == es;
    forall k | 0 <= k < |es| - 1
      ensures es[k + 1].content == Written(read(rs[k].diskfile))
      ensures HasPrefix(dir, es[k + 1].path) && IsVariant(es[k + 1].path[|dir|..], rs[k].filename)
    {
      assert es[k + 1] == p.entries[k];
      PrefixSplit(dir, p.registry[1 + k]);
    }
  }

  /** Every path of one issue's packet lies under its packet directory, and no two are equal. */
  lemma IssuePacketPaths(issue: Issue, pdfContent: Bytes, read: Reader)
    requires NamesOk(issue.attachments)
    ensures var o := IssuePacket(issue, pdfContent, read);
      && (forall k :: 0 <= k < |o.entries| ==> HasPrefix(PacketDir(issue.id) + "/", o.entries[k].path))
      && Distinct(Paths(o.entries))
  {
    PacketPaths(PacketDir(issue.id) + "/", TicketName(issue.id), pdfContent, issue.attachments, read, true);
  }

  /**
   * A packet in the batch fails exactly when a readable attachment's read
   * fails, and then the error names the first such attachment, the issue and
   * the read's message, and that attachment's (empty) entry is the last one.
   */
  lemma IssuePacketFailure(issue: Issue, pdfContent: Bytes, read: Reader)
    requires NamesOk(issue.attachments)
    ensures var o := IssuePacket(issue, pdfContent, read);
      var rs := Readables(issue.attachments);
      && (o.failure.None? <==> forall k :: 0 <= k < |rs| ==> read(rs[k].diskfile).Read?)
      && (o.failure.Some? ==>
            2 <= |o.entries| <= 1 + |rs| &&
            read(rs[|o.entries| - 2].diskfile).ReadFailed? &&
            (forall k :: 0 <= k < |o.entries| - 2 ==> read(rs[k].diskfile).Read?) &&
            o.failure == Some(AttachmentFailed(rs[|o.entries| - 2].filename, issue.id,
                                               read(rs[|o.entries| - 2].diskfile).message)))
  {
    var dir, seed, atts := PacketDir(issue.id) + "/", [TicketName(issue.id)], issue.attachments;
    PassFailure(dir, atts, seed, read, true);
    PassReadsBefore(dir, atts, seed, read);
  }

  /**
   * Once validation has passed, writing fails exactly when some read of a
   * readable attachment fails, and then always with an attachment error:
   * the missing-PDF check inside the loop never fires.
   */
  lemma {:induction false} WriteIssuesOutcome(issues: seq<Issue>, pdfs: PdfContents, read: Reader)
    requires AllNamesOk(issues) && AllHavePdf(issues, pdfs)
    ensures var w := WriteIssues(issues, pdfs, read);
      && (w.failure.None? <==> AllReadsSucceed(issues, read))
      && (w.failure.Some? ==> w.failure.value.AttachmentFailed?)
  {
    if issues != [] {
      var init, last := issues[..|issues| - 1], issues[|issues| - 1];
      assert forall i :: 0 <= i < |init| ==> init[i] == issues[i];
      WriteIssuesOutcome(init, pdfs, read);
      IssuePacketFailure(last, pdfs[last.id], read);
      ReadsSplit(issues, read);
      var w := WriteIssues(init, pdfs, read);
      if w.failure.None? {
        assert WriteIssues(issues, pdfs, read).failure == IssuePacket(last, pdfs[last.id], read).failure;
      }
    }
  }

  /** All reads of a list succeed exactly when those of its front and of its last issue do. */
  lemma ReadsSplit(issues: seq<Issue>, read: Reader)
    requires issues != []
    ensures var last := issues[|issues| - 1];
      AllReadsSucceed(issues, read) <==>
        AllReadsSucceed(issues[..|issues| - 1], read) &&
        forall k :: 0 <= k < |Readables(last.attachments)| ==> read(Readables(last.attachments)[k].diskfile).Read?
  {
    var n := |issues| - 1;
    var init, last := issues[..n], issues[n];
    if AllReadsSucceed(issues, read) {
      forall i, k | 0 <= i < |init| && 0 <= k < |Readables(init[i].attachments)|
        ensures read(Readables(init[i].attachments)[k].diskfile).Read?
      {
        assert init[i] == issues[i];
      }
      assert AllReadsSucceed(init, read);
      forall k | 0 <= k < |Readables(last.attachments)|
        ensures read(Readables(last.attachments)[k].diskfile).Read?
      {
        assert 0 <= n < |issues| && 0 <= k < |Readables(issues[n].attachments)|;
      }
    }
    if AllReadsSucceed(init, read) &&
       forall k :: 0 <= k < |Readables(last.attachments)| ==> read(Readables(last.attachments)[k].diskfile).Read?
    {
      forall i, k | 0 <= i < |issues| && 0 <= k < |Readables(issues[i].attachments)|
        ensures read(Readables(issues[i].attachments)[k].diskfile).Read?
      {
        if i < n {
          assert init[i] == issues[i];
          assert 0 <= i < |init| && 0 <= k < |Readables(init[i].attachments)|;
        } else {
          assert issues[i] == last;
        }
      }
      assert AllReadsSucceed(issues, read);
    }
    assert last == issues[|issues| - 1];
    assert init == issues[..|issues| - 1];
  }

  /**
   * create_multi_packet_with_pdfs raises the validation error when there is
   * one; otherwise it returns an archive exactly when every read of a readable
   * attachment succeeds, and any error it raises is an attachment error.
   */
  lemma MultiPacketOutcome(issues: seq<Issue>, pdfs: PdfContents, canView: ViewPermission, read: Reader)
    requires AllNamesOk(issues)
    ensures var r := MultiPacket(issues, pdfs, canView, read);
      var v := ValidationError(issues, pdfs, canView);
      && (v.Some? ==> r == Failure(v.value))
      && (v.None? ==> (r.Success? <==> AllReadsSucceed(issues, read)))
      && (v.None? && r.Failure? ==> r.error.AttachmentFailed?)
  {
    ValidationAccepts(issues, pdfs, canView);
    if ValidationError(issues, pdfs, canView).None? {
      WriteIssuesOutcome(issues, pdfs, read);
    }
  }

  /** Every entry lies under the packet directory of one of the issues. */
  ghost predicate UnderPacketDirs(es: seq<Entry>, issues: seq<Issue>) {
    forall k :: 0 <= k < |es| ==>
      exists i :: 0 <= i < |issues| && HasPrefix(PacketDir(issues[i].id) + "/", es[k].path)
  }

  /** Entries under other issues' directories never share a path with entries under issue `id`'s. */
  lemma OtherDirsDisjoint(es: seq<Entry>, issues: seq<Issue>, os: seq<Entry>, id: nat)
    requires UnderPacketDirs(es, issues)
    requires forall i :: 0 <= i < |issues| ==> issues[i].id != id
    requires forall k :: 0 <= k < |os| ==> HasPrefix(PacketDir(id) + "/", os[k].path)
    ensures forall i, j :: 0 <= i < |es| && 0 <= j < |os| ==> es[i].path != os[j].path
  {
    forall i, j | 0 <= i < |es| && 0 <= j < |os|
      ensures es[i].path != os[j].path
    {
      var m :| 0 <= m < |issues| && HasPrefix(PacketDir(issues[m].id) + "/", es[i].path);
      if es[i].path == os[j].path {
        PacketDirsDisjoint(issues[m].id, id, os[j].path);
      }
    }
  }

  /** Entries under the directories of a list's front stay under the list's directories once more are added. */
  lemma UnderPacketDirsExtend(es: seq<Entry>, os: seq<Entry>, issues: seq<Issue>)
    requires issues != []
    requires UnderPacketDirs(es, issues[..|issues| - 1])
    requires forall k :: 0 <= k < |os| ==> HasPrefix(PacketDir(issues[|issues| - 1].id) + "/", os[k].path)
    ensures UnderPacketDirs(es + os, issues)
  {
    var init := issues[..|issues| - 1];
    var all := es + os;
    forall k | 0 <= k < |all|
      ensures exists i :: 0 <= i < |issues| && HasPrefix(PacketDir(issues[i].id) + "/", all[k].path)
    {
      if k < |es| {
        assert all[k] == es[k];
        assert exists m :: 0 <= m < |init| && HasPrefix(PacketDir(init[m].id) + "/", es[k].path);
        var m :| 0 <= m < |init| && HasPrefix(PacketDir(init[m].id) + "/", es[k].path);
        assert issues[m] == init[m];
        assert HasPrefix(PacketDir(issues[m].id) + "/", all[k].path);
      } else {
        var n := |issues| - 1;
        assert all[k] == os[k - |es|];
        assert HasPrefix(PacketDir(issues[n].id) + "/", all[k].path);
      }
    }
    assert UnderPacketDirs(all, issues);
  }

  /**
   * With distinct issue ids, the written entries have pairwise distinct paths,
   * each lying under the packet directory of one of the issues.
   */
  lemma {:induction false} WriteIssuesPaths(issues: seq<Issue>, pdfs: PdfContents, read: Reader)
    requires AllNamesOk(issues) && AllHavePdf(issues, pdfs) && DistinctIds(issues)
    ensures var es := WriteIssues(issues, pdfs, read).entries;
      Distinct(Paths(es)) && UnderPacketDirs(es, issues)
  {
    if issues != [] {
      var init, last := issues[..|issues| - 1], issues[|issues| - 1];
      assert forall i :: 0 <= i < |init| ==> init[i] == issues[i];
      WriteIssuesPaths(init, pdfs, read);
      var w := WriteIssues(init, pdfs, read);
      if w.failure.None? {
        var o := IssuePacket(last, pdfs[last.id], read);
        IssuePacketPaths(last, pdfs[last.id], read);
        OtherDirsDisjoint(w.entries, init, o.entries, last.id);
        DistinctAppend(w.entries, o.entries);
        UnderPacketDirsExtend(w.entries, o.entries, issues);
      } else {
        forall k | 0 <= k < |w.entries|
          ensures exists i :: 0 <= i < |issues| && HasPrefix(PacketDir(issues[i].id) + "/", w.entries[k].path)
        {
          var m :| 0 <= m < |init| && HasPrefix(PacketDir(init[m].id) + "/", w.entries[k].path);
          assert issues[m] == init[m];
        }
      }
    }
  }

  /**
   * The batch archive, when there is one, holds no two entries at the same
   * path as long as the issue ids are distinct, and every entry lies under
   * the packet directory of one of the issues.
   */
  lemma BatchPathsUnique(issues: seq<Issue>, pdfs: PdfContents, canView: ViewPermission, read: Reader)
    requires AllNamesOk(issues) && DistinctIds(issues)
    requires MultiPacket(issues, pdfs, canView, read).Success?
    ensures var es := MultiPacket(issues, pdfs, canView, read).value;
      Distinct(Paths(es)) && UnderPacketDirs(es, issues)
  {
    ValidationAccepts(issues, pdfs, canView);
    WriteIssuesPaths(issues, pdfs, read);
  }

  /**
   * Without distinct ids, paths do repeat: for a list naming the same issue
   * twice, a returned archive holds that issue's document path twice.
   */
  lemma RepeatedIssueRepeatsPaths(x: Issue, pdfs: PdfContents, canView: ViewPermission, read: Reader)
    requires NamesOk(x.attachments)
    ensures AllNamesOk([x, x])
    ensures var r := MultiPacket([x, x], pdfs, canView, read);
      r.Success? ==> !Distinct(Paths(r.value))
  {
    var xs := [x, x];
    assert AllNamesOk(xs);
    var r := MultiPacket(xs, pdfs, canView, read);
    if r.Success? {
      ValidationAccepts(xs, pdfs, canView);
      assert x.id in pdfs;
      var o := IssuePacket(x, pdfs[x.id], read);
      assert xs[..0] == [] && xs[..2] == xs;
      assert WriteIssues(xs[..0], pdfs, read) == Output([], None);
      WriteNext(xs, pdfs, read, 0);
      WriteNext(xs, pdfs, read, 1);
      var w1 := WriteIssues(xs[..1], pdfs, read);
      assert w1.entries == [] + o.entries;
      var es := r.value;
      assert es == w1.entries + o.entries;
      var n := |o.entries|;
      assert es[0] == o.entries[0] == es[n];
      assert Paths(es)[0] == Paths(es)[n];
    }
  }

  /**
   * Each issue has a namespace of its own: when its readable attachments'
   * names are distinct and none is its document's name, every one of them
   * is archived under the packet directory with its name unchanged, whatever
   * the other issues hold.
   */
  lemma IssuePacketKeepsNames(issue: Issue, pdfContent: Bytes, read: Reader)
    requires NamesOk(issue.attachments)
    requires Distinct(Filenames(Readables(issue.attachments)))
    requires forall k :: 0 <= k < |Readables(issue.attachments)| ==>
      Readables(issue.attachments)[k].filename != TicketName(issue.id)
    ensures var o := IssuePacket(issue, pdfContent, read);
      var rs := Readables(issue.attachments);
      && |o.entries| <= 1 + |rs|
      && forall k :: 0 <= k < |o.entries| - 1 ==> o.entries[k + 1].path == PacketDir(issue.id) + "/" + rs[k].filename
  {
    var dir, seed, atts := PacketDir(issue.id) + "/", [TicketName(issue.id)], issue.attachments;
    PassKeepsFreshNames(dir, atts, seed, read, true);
    PassRegistry(dir, atts, seed, read, true);
    var p := AttachPass(dir, atts, seed, read, true);
    var o := IssuePacket(issue, pdfContent, read);
    forall j | 1 <= j < |o.entries| ensures o.entries[j] == p.entries[j - 1] {
    }
  }

  /**
   * Issues are written in input order and nothing is rewritten: what the first
   * j issues produce is a prefix of what the whole list produces.
   */
  lemma {:induction false} WritePrefix(issues: seq<Issue>, pdfs: PdfContents, read: Reader, j: nat)
    requires AllNamesOk(issues) && j <= |issues|
    requires WriteIssues(issues, pdfs, read).failure.None?
    ensures AllNamesOk(issues[..j])
    ensures var w, es := WriteIssues(issues[..j], pdfs, read), WriteIssues(issues, pdfs, read).entries;
      w.failure.None? && |w.entries| <= |es| && es[..|w.entries|] == w.entries
    decreases |issues|
  {
    if j == |issues| {
      assert issues[..j] == issues;
    } else {
      var init := issues[..|issues| - 1];
      assert forall i :: 0 <= i < |init| ==> init[i] == issues[i];
      assert init[..j] == issues[..j];
      WritePrefix(init, pdfs, read, j);
    }
  }

  /**
   * The packet of issue i appears whole in the written entries, right after
   * what the issues before it produced and right before what the next one
   * produces.
   */
  lemma WriteIssuesIncludes(issues: seq<Issue>, pdfs: PdfContents, read: Reader, i: nat)
    requires AllNamesOk(issues) && AllHavePdf(issues, pdfs) && i < |issues|
    requires WriteIssues(issues, pdfs, read).failure.None?
    ensures AllNamesOk(issues[..i]) && AllNamesOk(issues[..i + 1])
    ensures var es, pe := WriteIssues(issues, pdfs, read).entries, IssuePacket(issues[i], pdfs[issues[i].id], read).entries;
      var off := |WriteIssues(issues[..i], pdfs, read).entries|;
      SectionAt(es, off, pe) && off + |pe| == |WriteIssues(issues[..i + 1], pdfs, read).entries|
  {
    WriteNext(issues, pdfs, read, i);
    WritePrefix(issues, pdfs, read, i);
    WritePrefix(issues, pdfs, read, i + 1);
    var es := WriteIssues(issues, pdfs, read).entries;
    var pe := IssuePacket(issues[i], pdfs[issues[i].id], read).entries;
    var wi := WriteIssues(issues[..i], pdfs, read).entries;
    var wn := WriteIssues(issues[..i + 1], pdfs, read).entries;
    assert wn == wi + pe;
    assert wn[|wi|..] == pe;
    SectionOfPrefix(es, wn, pe);
  }

  /** For i < j, the packet of issue i ends at or before the packet of issue j begins. */
  lemma PacketsInOrder(issues: seq<Issue>, pdfs: PdfContents, read: Reader, i: nat, j: nat)
    requires AllNamesOk(issues) && AllHavePdf(issues, pdfs) && i < j < |issues|
    requires WriteIssues(issues, pdfs, read).failure.None?
    ensures AllNamesOk(issues[..i + 1]) && AllNamesOk(issues[..j])
    ensures |WriteIssues(issues[..i + 1], pdfs, read).entries| <= |WriteIssues(issues[..j], pdfs, read).entries|
  {
    WritePrefix(issues, pdfs, read, j);
    var front := issues[..j];
    assert front[..i + 1] == issues[..i + 1];
    WritePrefix(front, pdfs, read, i + 1);
  }

  /**
   * When every read of an issue succeeds and its readable attachments have
   * distinct names, none its document's name, its packet is exactly the
   * document followed by each attachment's bytes at `packet_{id}/` + its name.
   */
  lemma IssuePacketEntries(issue: Issue, pdfContent: Bytes, read: Reader)
    requires NamesOk(issue.attachments)
    requires Distinct(Filenames(Readables(issue.attachments)))
    requires forall k :: 0 <= k < |Readables(issue.attachments)| ==>
      Readables(issue.attachments)[k].filename != TicketName(issue.id)
    requires forall k :: 0 <= k < |Readables(issue.attachments)| ==>
      read(Readables(issue.attachments)[k].diskfile).Read?
    ensures var o, rs := IssuePacket(issue, pdfContent, read), Readables(issue.attachments);
      && o.failure.None?
      && |o.entries| == 1 + |rs|
      && o.entries[0] == Entry(DocPath(issue.id), pdfContent)
      && forall k :: 0 <= k < |rs| ==>
           o.entries[k + 1] == Entry(PacketDir(issue.id) + "/" + rs[k].filename, read(rs[k].diskfile).data)
  {
    IssuePacketShape(issue, pdfContent, read);
    IssuePacketFailure(issue, pdfContent, read);
    IssuePacketKeepsNames(issue, pdfContent, read);
  }

  /** Every entry of a section found in a list is an entry of that list. */
  lemma SectionMembers(es: seq<Entry>, off: nat, section: seq<Entry>)
    requires SectionAt(es, off, section)
    ensures forall j :: 0 <= j < |section| ==> section[j] in es
  {
    forall j | 0 <= j < |section| ensures section[j] in es {
      assert es[off..off + |section|][j] == es[off + j];
    }
  }

  /**
   * In a batch archive, an issue whose readable attachments have distinct
   * names, none its document's name, has each of them stored with its bytes
   * at `packet_{id}/` + its own name: two issues each carrying `notes.txt`
   * give `packet_{a}/notes.txt` and `packet_{b}/notes.txt`.
   */
  lemma BatchKeepsNames(issues: seq<Issue>, pdfs: PdfContents, canView: ViewPermission, read: Reader, i: nat)
    requires AllNamesOk(issues) && i < |issues|
    requires MultiPacket(issues, pdfs, canView, read).Success?
    requires Distinct(Filenames(Readables(issues[i].attachments)))
    requires forall k :: 0 <= k < |Readables(issues[i].attachments)| ==>
      Readables(issues[i].attachments)[k].filename != TicketName(issues[i].id)
    ensures var es, rs := MultiPacket(issues, pdfs, canView, read).value, Readables(issues[i].attachments);
      && issues[i].id in pdfs
      && Entry(DocPath(issues[i].id), pdfs[issues[i].id]) in es
      && forall k :: 0 <= k < |rs| ==>
           read(rs[k].diskfile).Read? &&
           Entry(PacketDir(issues[i].id) + "/" + rs[k].filename, read(rs[k].diskfile).data) in es
  {
    var issue := issues[i];
    var rs := Readables(issue.attachments);
    ValidationAccepts(issues, pdfs, canView);
    MultiPacketOutcome(issues, pdfs, canView, read);
    forall k | 0 <= k < |rs| ensures read(rs[k].diskfile).Read? {
      assert 0 <= i < |issues| && 0 <= k < |Readables(issues[i].attachments)|;
    }
    var o := IssuePacket(issue, pdfs[issue.id], read);
    IssuePacketEntries(issue, pdfs[issue.id], read);
    WriteIssuesIncludes(issues, pdfs, read, i);
    var es := WriteIssues(issues, pdfs, read).entries;
    SectionMembers(es, |WriteIssues(issues[..i], pdfs, read).entries|, o.entries);
    assert o.entries[0] in es;
    forall k | 0 <= k < |rs|
      ensures Entry(PacketDir(issue.id) + "/" + rs[k].filename, read(rs[k].diskfile).data) in es
    {
      assert o.entries[k + 1] in es;
    }
  }

  /** Batch mode skips an unreadable attachment without a trace as well. */
  lemma IssueUnreadableSkipped(id: nat, projectId: nat, before: seq<Attachment>, u: Attachment, after: seq<Attachment>, pdfContent: Bytes, read: Reader)
    requires !u.readable
    requires NamesOk(before + [u] + after) && NamesOk(before + after)
    ensures IssuePacket(Issue(id, projectId, before + [u] + after), pdfContent, read) ==
            IssuePacket(Issue(id, projectId, before + after), pdfContent, read)
  {
    UnreadableSkipped(PacketDir(id) + "/", before, u, after, [TicketName(id)], read, true);
  }
}
