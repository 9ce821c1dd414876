# Packet assembly of the Redmine packet-creation plugin, in Dafny

This project models the core of a Redmine plugin that bundles an issue's rendered PDF and its attachments into one ZIP archive (a *packet*), and proves properties of that model. The core is two Ruby services:

- `PacketCreationService` (single mode) builds the packet for one issue:
  - `ticket_{id}.pdf` comes first.
  - Then each readable attachment follows at the archive root, in order.
  - Names are made unique by `ensure_unique_filename` against a registry of names already archived.
  - A failed read is logged and rescued, so an archive is always returned.
  - The legacy `create_packet` always raises `NotImplementedError`.
- `MultiPacketCreationService` (batch mode) first validates its inputs:
  - The issue list must be non-empty.
  - Per issue, in order, the user needs view permission and a PDF must be present.
  - It then writes every issue under its own directory `packet_{id}/`, with its own registry seeded with `ticket_{id}.pdf`.
  - A failed read is re-raised naming the attachment and the issue, and the whole batch yields no archive.

## Module structure

- `Decimal` renders ids and counters as Ruby's `to_s` does, and proves that rendering injective.
- `FileNames` models:
  - Ruby's `File.extname` and `File.basename(name, suffix)` for names without a `/` or a NUL.
  - `ensure_unique_filename` as a specification function (`Resolve`) plus the loop as a method.
- `Archive` holds the entry type and the `ArchiveWriter` class. That class models `Zip::OutputStream` as its ordered list of entries.
- `Attachments` holds the issue and attachment data and the attachment loop the two services share (`AttachPass`). The loop is parametrised by:
  - the path prefix;
  - whether a failed read aborts the loop.
- `PacketCreation` models single mode and `MultiPacketCreation` models batch mode. Each has imperative methods proved equal to specification functions, and lemmas about those functions.
- `Scenarios` states the service tests' concrete expectations as lemmas.

## Behaviour worth noting

Three consequences of the order of the calls in the code, all modelled as the code has them:

1. **A failed read in single mode leaves an empty entry.** `put_next_entry` (lib/packet_creation_service.rb:37) runs before `IO.binread` (:38). So the entry is already in the stream when the read raises, and the disambiguated name is already registered (:35). The returned archive holds that entry, empty, at that name (`PacketCreation.ReadFailureRescued`).
2. **A failed read in batch mode leaves an empty entry too** (lib/multi_packet_creation_service.rb:57-58). The error is re-raised (:62), so no archive is returned and the entry is never seen.
3. **An unreadable attachment does not abort a batch.** `next unless attachment.readable?` (lib/multi_packet_creation_service.rb:51) skips it, exactly as in single mode (lib/packet_creation_service.rb:31). Only a read that raises after `readable?` held aborts a batch (`MultiPacketCreation.IssueUnreadableSkipped`, `MultiPacketCreation.MultiPacketOutcome`).

## Model

| member | source | states |
|---|---|---|
| Decimal.Show | lib/packet_creation_service.rb:56 | the interpolated number is a non-empty string of digits with no leading zero |
| Decimal.ParseShow | lib/packet_creation_service.rb:56 | reading the digits back gives the number |
| Decimal.ShowInjective | lib/packet_creation_service.rb:56 | distinct counters and distinct ids give distinct strings |
| FileNames.ExtName | lib/packet_creation_service.rb:52 | specification function: `File.extname(name)`, the name from `ExtStart` on ("" when there is no extension, "." for a trailing dot) |
| FileNames.BaseName | lib/packet_creation_service.rb:53 | specification function: `File.basename(name, suffix)` for a name without a `/`, with the suffix removed when it is non-empty, shorter than the name and ends it |
| FileNames.Stem | lib/packet_creation_service.rb:53 | specification function: `File.basename(name, File.extname(name))`, the part kept before the counter |
| FileNames.DupName | lib/packet_creation_service.rb:56 | specification function: the candidate `"#{basename}(#{n})#{extname}"` for counter n |
| FileNames.LeadingDots | lib/packet_creation_service.rb:52 | the run of leading dots that `File.extname` skips: all dots, followed by a non-dot |
| FileNames.LastDotFrom | lib/packet_creation_service.rb:52 | the last dot at or after a position, or none, with no dot after it |
| FileNames.ExtStart | lib/packet_creation_service.rb:52 | the extension starts at the last dot after the leading dots, never at index 0, or there is no extension when no such dot exists |
| FileNames.SplitName | lib/packet_creation_service.rb:52-53 | basename + extname rebuilds the name; the extension is empty or one dot followed by no dot, and then the stem is non-empty |
| FileNames.SplitAt | lib/packet_creation_service.rb:52-53 | for a name not starting with a dot, the split falls at its last dot, or at its end when it has none |
| FileNames.DupNameInjective | lib/packet_creation_service.rb:56 | distinct counters give distinct candidate names |
| FileNames.CandidatesSize | lib/packet_creation_service.rb:55-59 | the candidates for counters 1..k are k distinct names |
| FileNames.TakenBound | lib/packet_creation_service.rb:55-59 | if candidates 1..k are all taken, the list has at least k names, so the loop ends |
| FileNames.FirstFree | lib/packet_creation_service.rb:55-59 | the counter found is free, every counter below it is taken, and it is at most the list length + 1 |
| FileNames.Resolve | lib/packet_creation_service.rb:48-60 | specification function: what `ensure_unique_filename` returns, the name itself when free, else `DupName` with the first free counter from 1 |
| FileNames.ResolveSpec | lib/packet_creation_service.rb:48-60 | the result is never taken; it is the name itself exactly when the name is free; otherwise it is `base(n)ext` for the smallest free n ≥ 1, with n ≤ list length + 1 |
| FileNames.ResolveAt | lib/packet_creation_service.rb:55-59 | a counter that is free while all smaller ones are taken is the one returned |
| FileNames.ResolveIsVariant | lib/packet_creation_service.rb:48-60 | the result is the name or one of its `base(n)ext` forms |
| FileNames.EnsureUniqueFilename | lib/packet_creation_service.rb:48-60 | the counting loop returns exactly what the specification `Resolve` gives (an identical copy is in lib/multi_packet_creation_service.rb:67-79) |
| Archive.ArchiveWriter.constructor | lib/packet_creation_service.rb:22 | a new output stream has no entries |
| Archive.ArchiveWriter.PutNextEntry | lib/packet_creation_service.rb:37 | opening an entry appends an empty entry at that path and changes nothing else |
| Archive.ArchiveWriter.Write | lib/packet_creation_service.rb:38 | writing appends the bytes to the last opened entry and changes nothing else |
| Archive.DistinctAppend | lib/multi_packet_creation_service.rb:13-20 | two runs of distinct paths that share none concatenate to distinct paths |
| Attachments.Readables | lib/packet_creation_service.rb:30-31 | specification function: the attachments that pass `next unless attachment.readable?`, in order |
| Attachments.Step | lib/packet_creation_service.rb:34-38 | specification function: one readable attachment, with its name resolved and registered, its entry opened at prefix + name holding the file's bytes (empty if the read raised), and the failure recorded when failures abort |
| Attachments.AttachPass | lib/packet_creation_service.rb:30-44 | specification function: the attachment loop in order, skipping unreadable ones and stopping after a recorded failure; with prefix "" and no abort it is the single loop, with `packet_{id}/` and abort the batch loop at lib/multi_packet_creation_service.rb:50-64 |
| Attachments.PassNext | lib/packet_creation_service.rb:30-44 | step lemma for the loop proofs: one more attachment: skipped when unreadable or once stopped, else one step |
| Attachments.PassSkips | lib/packet_creation_service.rb:31 | step lemma for the loop proofs: an unreadable attachment leaves entries, registry and failure unchanged |
| Attachments.PassWrites | lib/packet_creation_service.rb:34-38 | step lemma for the loop proofs: a readable attachment whose read does not stop the loop adds one entry at prefix + resolved name, holding what was read, and registers that name |
| Attachments.PassAppend | lib/packet_creation_service.rb:34-38 | step lemma for the loop proofs: the same step stated for a list extended by one attachment |
| Attachments.PassRegistry | lib/packet_creation_service.rb:28-35 | the registry is the seed plus one name per entry; each entry sits at prefix + its name; a seed without repeats gives a registry without repeats; without abort no failure escapes |
| Attachments.PassCount | lib/packet_creation_service.rb:30-31 | at most one entry per readable attachment, and exactly one each when the loop did not stop |
| Attachments.PassContents | lib/packet_creation_service.rb:34-38 | entry k holds readable attachment k's bytes (none after a failed read), under its name or a disambiguated form |
| Attachments.PassFailure | lib/multi_packet_creation_service.rb:53-63 | a reported failure is the last entry's attachment and its read's message; with abort, no failure exactly when every readable attachment was read |
| Attachments.PassReadsBefore | lib/multi_packet_creation_service.rb:50-63 | with abort, every read before the failing one succeeded |
| Attachments.PassStopped | lib/multi_packet_creation_service.rb:62 | once the loop stopped, later attachments change nothing |
| Attachments.UnreadableSkipped | lib/packet_creation_service.rb:31 | removing an unreadable attachment from anywhere in the list leaves the loop's outcome unchanged |
| Attachments.PassKeepsFreshNames | lib/packet_creation_service.rb:34 | readable attachments with distinct names, none already registered, keep their own names |
| Attachments.PacketPaths | lib/multi_packet_creation_service.rb:44-57 | the document and the loop's entries all start with the prefix, and no two paths are equal |
| PacketCreation.TicketName | lib/packet_creation_service.rb:24 | specification function: the document's name `ticket_{id}.pdf` |
| PacketCreation.CombinedZip | lib/packet_creation_service.rb:19-46 | specification function: the single packet, the PDF at `ticket_{id}.pdf` followed by the loop's entries from a registry seeded with that name |
| PacketCreation.CreatePacket | lib/packet_creation_service.rb:13-15 | the legacy entry point always fails with NotImplementedError |
| PacketCreation.CreateCombinedZip | lib/packet_creation_service.rb:19-46 | the stream method produces exactly the single-packet specification `CombinedZip` |
| PacketCreation.CreatePacketWithPdf | lib/packet_creation_service.rb:8-10 | the packet of the issue's own attachments |
| PacketCreation.CombinedZipShape | lib/packet_creation_service.rb:19-46 | PDF first, then exactly one entry per readable attachment in order, each holding that file's bytes (none if the read failed) under its name or a `base(n)ext` form; all paths distinct |
| PacketCreation.OnlyDocument | lib/packet_creation_service.rb:22-28 | with no readable attachment the packet is the PDF entry alone |
| PacketCreation.ReadFailureRescued | lib/packet_creation_service.rb:33-43 | a failed read does not shorten the packet, and the failed attachment keeps an empty entry under its registered name |
| PacketCreation.UnreadableLeavesNoTrace | lib/packet_creation_service.rb:31 | the packet with an unreadable attachment equals the packet without it |
| MultiPacketCreation.IssueError | lib/multi_packet_creation_service.rb:29-35 | specification function: one issue's validation error, permission denied before missing PDF, or none |
| MultiPacketCreation.FirstInvalid | lib/multi_packet_creation_service.rb:28-36 | specification function: the error of the first issue, in order, that fails a check |
| MultiPacketCreation.ValidationError | lib/multi_packet_creation_service.rb:25-37 | specification function: "No issues provided" for an empty list, else the first issue's error |
| MultiPacketCreation.PacketDir | lib/multi_packet_creation_service.rb:40 | specification function: the issue's directory `packet_{id}` |
| MultiPacketCreation.DocPath | lib/multi_packet_creation_service.rb:44 | specification function: the document's path `packet_{id}/ticket_{id}.pdf` |
| MultiPacketCreation.IssuePacket | lib/multi_packet_creation_service.rb:39-65 | specification function: one issue's packet, the document followed by the batch loop under `packet_{id}/` with its own registry; a failed read becomes an attachment error naming the issue |
| MultiPacketCreation.WriteIssues | lib/multi_packet_creation_service.rb:13-20 | specification function: the issues' packets in input order, stopping at the first missing PDF or failed packet |
| MultiPacketCreation.MultiPacket | lib/multi_packet_creation_service.rb:8-21 | specification function: `create_multi_packet_with_pdfs`, the validation error, the first write error, or the written entries |
| MultiPacketCreation.ValidateInputs | lib/multi_packet_creation_service.rb:25-37 | the validation loop raises exactly what the specification `ValidationError` gives |
| MultiPacketCreation.ValidationAccepts | lib/multi_packet_creation_service.rb:25-37 | validation passes if and only if the list is non-empty and every issue is viewable and has a PDF |
| MultiPacketCreation.FirstInvalidNone | lib/multi_packet_creation_service.rb:28-36 | no issue fails a check if and only if no error is found |
| MultiPacketCreation.ValidationFirstOffender | lib/multi_packet_creation_service.rb:28-36 | the first offending issue decides the error: permission denied before missing PDF, naming that issue |
| MultiPacketCreation.CreateIssuePacketInZip | lib/multi_packet_creation_service.rb:39-65 | the stream gains exactly the issue packet's entries (the document, then attachments under `packet_{id}/`), and the error returned is the packet's failure |
| MultiPacketCreation.IssuePacketStopped | lib/multi_packet_creation_service.rb:60-63 | a packet whose loop stopped is what was written up to there, with the error naming attachment and issue |
| MultiPacketCreation.IssuePacketCompletes | lib/multi_packet_creation_service.rb:50-64 | a packet whose every read succeeded is the document followed by the loop's entries, without error |
| MultiPacketCreation.IssuePacketFailsAt | lib/multi_packet_creation_service.rb:57-62 | a failed read ends the packet with that attachment's empty entry and an error carrying its filename, the issue id and the message |
| MultiPacketCreation.WriteNext | lib/multi_packet_creation_service.rb:14-19 | step lemma for the loop proofs: one more issue: unchanged once failed, a missing-PDF error, or that issue's packet appended |
| MultiPacketCreation.WriteStopped | lib/multi_packet_creation_service.rb:14-19 | once an issue failed, the issues after it are not written |
| MultiPacketCreation.CreateMultiPacketWithPdfs | lib/multi_packet_creation_service.rb:8-21 | the batch method returns exactly the specification `MultiPacket`: the validation error, the first write error, or the entries |
| MultiPacketCreation.DirDigits | lib/multi_packet_creation_service.rb:40 | a path under `packet_{id}/` carries the id's digits at a fixed position, followed by the '/' |
| MultiPacketCreation.PacketDirsDisjoint | lib/multi_packet_creation_service.rb:40 | a path under both `packet_{a}/` and `packet_{b}/` forces a = b |
| MultiPacketCreation.IssuePacketShape | lib/multi_packet_creation_service.rb:39-65 | document first; then one entry per readable attachment up to the failed read, each with its file's bytes under `packet_{id}/` + its name or a `base(n)ext` form; all of them when nothing failed |
| MultiPacketCreation.IssuePacketPaths | lib/multi_packet_creation_service.rb:40-57 | every path of a packet lies under its directory, and no two are equal |
| MultiPacketCreation.IssuePacketFailure | lib/multi_packet_creation_service.rb:53-63 | a packet fails exactly when a readable attachment's read fails; the error names the first such attachment, the issue and the message, and all earlier reads succeeded |
| MultiPacketCreation.WriteIssuesOutcome | lib/multi_packet_creation_service.rb:14-19 | after validation, writing fails exactly when some read fails, and then only with an attachment error: the in-loop missing-PDF check never fires |
| MultiPacketCreation.MultiPacketOutcome | lib/multi_packet_creation_service.rb:8-21 | a validation error is raised as is; otherwise an archive is returned exactly when every read succeeds, and any other error is an attachment error |
| MultiPacketCreation.OtherDirsDisjoint | lib/multi_packet_creation_service.rb:57 | entries under other issues' directories never share a path with entries under this issue's directory |
| MultiPacketCreation.WriteIssuesPaths | lib/multi_packet_creation_service.rb:13-20 | with distinct issue ids, the written paths are pairwise distinct and each lies under some issue's directory |
| MultiPacketCreation.BatchPathsUnique | lib/multi_packet_creation_service.rb:8-21 | a returned batch archive has no two entries at one path, and every entry is under some issue's directory |
| MultiPacketCreation.RepeatedIssueRepeatsPaths | lib/multi_packet_creation_service.rb:40-45 | without distinct ids paths repeat: a returned archive for a list naming one issue twice has a path twice |
| MultiPacketCreation.IssuePacketKeepsNames | lib/multi_packet_creation_service.rb:40-57 | an issue whose readable attachments have distinct names, none its document's name, stores each at `packet_{id}/` + its own name, whatever other issues hold |
| MultiPacketCreation.IssuePacketEntries | lib/multi_packet_creation_service.rb:39-57 | when every read of such an issue succeeds, its packet raises nothing and is exactly the document followed by each readable attachment's bytes at `packet_{id}/` + its own name, in attachment order |
| MultiPacketCreation.WritePrefix | lib/multi_packet_creation_service.rb:13-20 | issues are written in input order and nothing is rewritten: what the first j issues produce is a prefix of the whole output |
| MultiPacketCreation.WriteIssuesIncludes | lib/multi_packet_creation_service.rb:14-19 | issue i's packet appears whole in the written entries, starting right after what the issues before it produced and ending where the output of the first i+1 issues ends |
| MultiPacketCreation.PacketsInOrder | lib/multi_packet_creation_service.rb:14-19 | for i < j, issue i's packet ends at or before issue j's packet begins |
| MultiPacketCreation.BatchKeepsNames | lib/multi_packet_creation_service.rb:8-21 | in a returned archive, each such issue's document and each readable attachment's bytes are present at `packet_{id}/` + its own name |
| MultiPacketCreation.IssueUnreadableSkipped | lib/multi_packet_creation_service.rb:51 | batch mode also skips an unreadable attachment without a trace |
| Scenarios.CounterDigits | lib/packet_creation_service.rb:56 | the counters 1, 2, 3 render as "1", "2", "3" |
| Scenarios.UniqueFilenameFree | test/unit/packet_creation_service_test.rb:121-123 | a free name is kept (test.txt, test.pdf) |
| Scenarios.UniqueFilenameFirst | test/unit/packet_creation_service_test.rb:125-127 | test.txt against [test.txt] gives test(1).txt |
| Scenarios.UniqueFilenameThird | test/unit/packet_creation_service_test.rb:129-131 | test.txt against test.txt, test(1).txt, test(2).txt gives test(3).txt |
| Scenarios.UniqueFilenameNoExtension | test/unit/packet_creation_service_test.rb:133-135 | README against [README] gives README(1) |
| Scenarios.UniqueFilenameDoubleExtension | test/unit/packet_creation_service_test.rb:137-139 | test.tar.gz against [test.tar.gz] gives test.tar(1).gz |
| Scenarios.UniqueFilenameSecond | test/unit/multi_packet_creation_service_test.rb:102-104 | test.pdf against test.pdf, test(1).pdf gives test(2).pdf |
| Scenarios.SameNameResolves | lib/packet_creation_service.rb:48-60 | a name taken once resolves to `base(1)ext`, taken with that too to `base(2)ext` |
| Scenarios.SameNamePacket | test/unit/packet_creation_service_test.rb:81-116 | three readable attachments sharing one name give the PDF, then the name, `base(1)ext` and `base(2)ext`, each with its own content |
| Scenarios.DuplicateNamesPacket | test/unit/packet_creation_service_test.rb:81-116 | three `duplicate.txt` attachments give ticket_1.pdf, duplicate.txt, duplicate(1).txt, duplicate(2).txt with content1, content2, content3 |

## Left out

- The ZIP byte format (local headers, central directory, compression) and `.string` on the buffer are left out. An archive is modelled as its ordered list of entries (path, bytes).
- `IO.binread` is a parameter `read` from disk-file path to bytes or an error message. `attachment.readable?` is a field of the attachment. The file store itself is not modelled.
- `User.current.allowed_to?(:view_issues, issue.project)` is a parameter `canView` over project ids. Redmine's permission system is not modelled.
- `Rails.logger.warn` is left out, because logging has no effect on the archive.
- The exception classes are modelled as error values. Only the ones the services raise appear: ArgumentError "No issues provided", the RuntimeError messages, and NotImplementedError.
- Errors that rubyzip itself might raise from `put_next_entry` or `write` are left out, because the stream is assumed not to fail.
- A `nil` value in the PDF map is treated like a missing key. A PDF is either present as bytes or absent.
- FileNames.ExtName: models `File.extname` as Ruby 2.7 and later on non-Windows systems behave. Leading dots are skipped, and a trailing dot gives ".". Older Ruby versions and Windows differ on these corner cases.
- FileNames.PlainName: attachment filenames are assumed to contain neither `/` nor NUL, which is how Redmine stores them; every member over filenames requires this. With a `/`, `File.basename` would drop the directory part. With a NUL, `File.extname` (lib/packet_creation_service.rb:52) raises `ArgumentError` once the name is taken. In single mode that error would be rescued with no entry and no registered name; in batch mode it would abort the batch. Neither path is modelled.
- FileNames.BaseName: the `".*"` wildcard suffix of `File.basename` is not modelled as a separate branch. A name such as `x.*` has the extension `".*"`, so Ruby takes that branch, which cuts the name at its last dot. Stripping the extension literally cuts at the same dot, so the model's stem is the same.
- Batch-wide path uniqueness (`MultiPacketCreation.WriteIssuesPaths`, `MultiPacketCreation.BatchPathsUnique`) is proved for lists of distinct issues. The service does not check this. A list that repeats an issue repeats its packet's paths (`MultiPacketCreation.RepeatedIssueRepeatsPaths`).
- The controller, the context-menu and view hooks, the attachments helper patch and plugin registration are not part of this model. They call the services, render the PDF and send the archive.
