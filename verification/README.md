# Invoice pipeline: verified models

This project models the parts of the invoice pipeline that hold state, loops and arithmetic, and proves
what they promise for every input, every run and every pattern of failures:

- the duplicate remover (`scripts/remove_duplicate_invoices.py`): planning by content digest, then deleting
  or moving over a mutable file system;
- the v3.9.1 download run (`archive/graph_invoice_finder.v3.9.1.py`): a state machine over files, digests,
  rows and report, with its keyword gates and its URL normalisation;
- scoring, crawling, fetching and bookkeeping of v3.7.4 (`archive/graph_invoice_finder.v3.7.4.py`);
- the keep-best merge of v1 (`archive/graph_invoice_finder.v1.py`).

Each loop or state change of the program is a method, proved against a function; the lemmas then say what
that function means without mentioning how it is computed. `dafny verify dfyconfig.toml` checks everything.

## Files

| file | content |
|---|---|
| Strings, Wrappers, Chains | substrings, decimals, stripping; options; chains of steps and the invariant principle |
| FileSystem | disks as values, the bag of all file contents, the two "find a free name" loops |
| Dedup, DedupRules | the duplicate remover: module Dedup (plan, apply, theorems) and DedupScript (the script's loops); which files are scanned and where they go |
| PdfGate | the keyword scan with its early exit and the message gate of v3.9.1 |
| DownloadRun, DownloadRunSafety, DownloadRunLedger, DownloadRunTrust, FinderScript | the v3.9.1 run: transitions, invariants, accounting, what is saved said of the mail itself, the program's loops |
| UrlNormal, UrlRules | `normalize_myinvoice_url`: its theorems, and what it does to the text of a URL |
| InvoiceText, InvoiceTextRules, Confidence, ConfidenceRules | the v3.7.4 text score and message confidence, in hundredths; the modules named Rules say what each word, page, link, rule and attachment is worth |
| Crawl, FetchLink, FetchRules, Bookkeeping | the v3.7.4 crawl, link fetch, which URLs a fetch tries and in which order, and row accounting |
| MergeById | the v1 merge |

## What is given from outside

- SHA-256 is a function parameter `hash`; results are per digest, and per content where "no collision among
  these files" is a hypothesis.
- Answers of the operating system and the network are inputs (`Outcome`, `Io`, `Response`, `HtmlAnswer`), one per
  operation, chosen freely. The HTML page behind a URL is a function of the URL; a download may answer differently
  each time. PDF text is a sequence of pages, each readable or not. URL parsing and the user's regular expressions
  are inputs.
- Scores are integers in hundredths. All constants of the program are whole hundredths, so its rounding to
  three digits is the identity; floating-point error is not modelled.
- One process writes to the files; no symbolic or hard links.

## Where the code and its description differ

- The v3.9.1 header says a verified PDF has a positive keyword and no negative one. The scan stops at three
  positive hits, so later negative pages are not seen (`PdfGate.NegativeAccepted` gives the exact condition,
  `NegativeAcceptedExample` a document). A file from a trusted source needs no positive keyword either
  (`VerdictMeaning` is exact, `NeutralAcceptedExample` such a document).
- A comment at v3.9.1:175 says that without PyMuPDF nothing is blocked; when no page is read, a PDF is accepted
  exactly if it is trusted (`PdfGate.NoPageIsRejected`).
- The dedup script's docstring offers `--move-to` as an alternative to `--apply`; without `--apply` it is a dry run.
- "Move" conserves contents except that a move across devices that fails half-way leaves its copy behind
  (`Dedup.MoveConservesExactly` states exactly when nothing is gained, `HalfDoneMoveExample` such a move). A move
  run leaves no duplicate exactly when there was none, or the quarantine is neither at nor under the scanned root,
  can be created, and every move goes through (`Dedup.MoveConvergesExactly`); at or under the root the number
  of duplicates never goes down (`Dedup.MovingInsideNeverConverges`).
- In v3.7.4 `score_links` the tracking-domain test has no effect: it skips only links that are dropped anyway.
  `Confidence.ScoreLinks` runs it and is proved equal to a score that does not know it.
- In v3.9.1 an exception while saving an attachment is caught, one while saving a link ends the run.
  `DownloadRun.LinkCrashesExactly` says which links do, `DownloadRunLedger.MessageOutcome` and `RunCrashesExactly`
  which messages and runs, and `FailingLinkExample` is such a run.
- `normalize_myinvoice_url` is idempotent except where `?`, `&` or `=` follows two backslashes
  (`UrlNormal.IdempotentExactly`).

## Model

| member | source | states |
|---|---|---|
| UniqueNames.SearchCounter | scripts/remove_duplicate_invoices.py:50-57 | The counting loop ends on every finite disk and yields the free name with the smallest counter from 2 |
| UniqueNames.NumberedInjective | scripts/remove_duplicate_invoices.py:54 | Different counters give different paths, whatever stem and suffix are |
| UniqueNames.StillTakenShrinks | scripts/remove_duplicate_invoices.py:53-57 | Every taken candidate uses up one of finitely many paths: why both loops end |
| UniqueNames.UniqueName | archive/graph_invoice_finder.v3.9.1.py:99-104 | The name is free, is directly inside its directory, and is the plain one if free, else the smallest counter from 2 |
| UniqueNames.UniqueNameDetermined | scripts/remove_duplicate_invoices.py:45-57 | That promise allows only one name |
| UniqueNames.PathlibSplit | scripts/remove_duplicate_invoices.py:50-51 | The name is cut at its last dot unless that is the first or last character; the parts put together are the name |
| UniqueNames.SplitExt | archive/graph_invoice_finder.v3.9.1.py:94 | The name is cut at its last dot unless only dots precede it; the parts put together are the name |
| Dedup.FirstWith | scripts/remove_duplicate_invoices.py:68-70 | The keeper of a digest is the first scanned path that has it |
| Dedup.PlanSound | scripts/remove_duplicate_invoices.py:60-73 | Duplicates are distinct scanned paths, each paired with the first path of its digest, which is nobody's duplicate |
| Dedup.PlanKeeperIsNoDup | scripts/remove_duplicate_invoices.py:68-72 | The first path of a digest is never planned for removal |
| Dedup.PlanComplete | scripts/remove_duplicate_invoices.py:68-72 | A scanned path that is not planned is the one keeper of its digest |
| Dedup.PlanCount | scripts/remove_duplicate_invoices.py:60-73 | Planned duplicates plus distinct digests equal scanned files |
| Dedup.CountIsOrderIndependent | scripts/remove_duplicate_invoices.py:34-42 | The number of duplicates is the same for every scan order |
| Dedup.PlanPairsEqualContents | scripts/remove_duplicate_invoices.py:60-73 | Without a digest collision among the scanned files, a duplicate has its keeper's very bytes |
| Dedup.StepKeeps | scripts/remove_duplicate_invoices.py:121-133 | One pass touches no file but its duplicate; a failing pass touches none |
| Dedup.ApplyKeeps | scripts/remove_duplicate_invoices.py:120-133 | Whatever fails, in either mode, every file not planned survives with its bytes |
| Dedup.PendingIntact | scripts/remove_duplicate_invoices.py:121-125 | When its turn comes each duplicate is at its own path with its original bytes, even if names were invented in its directory |
| Dedup.MoveConserves | scripts/remove_duplicate_invoices.py:123-125 | Moving conserves the multiset of all file contents, up to the copies left by half-done moves, wherever the target lies |
| Dedup.MoveConservesExactly | scripts/remove_duplicate_invoices.py:123-125 | It is conserved if and only if the target cannot be created or no move is left half-done |
| Dedup.HalfDoneMoveExample | scripts/remove_duplicate_invoices.py:125 | Two equal files and a move that fails after its copy: the contents are not conserved |
| Dedup.MoveCounts | scripts/remove_duplicate_invoices.py:120-135 | The move counter counts exactly the moves that went through |
| Dedup.DeleteExact | scripts/remove_duplicate_invoices.py:128-133 | Deleting removes exactly the duplicates whose delete went through, counts them, and changes nothing else |
| Dedup.KeepersSurvive | scripts/remove_duplicate_invoices.py:60-133 | After any run, in either mode, each scanned digest has its keeper at its path with its bytes, and files outside the scan are intact |
| Dedup.DeleteIsFinal | scripts/remove_duplicate_invoices.py:60-133 | After a fully successful delete run, a rescan in any order finds no duplicate and exactly one file per earlier digest |
| Dedup.DeleteLowersCount | scripts/remove_duplicate_invoices.py:60-133 | Whatever fails, a delete run lowers the number of duplicates by exactly the files it removed |
| Dedup.MovingOutsideLowersCount | scripts/remove_duplicate_invoices.py:60-133 | With the target outside the root, a move run lowers it by exactly the moves that went through, whatever fails |
| Dedup.MoveConvergesExactly | scripts/remove_duplicate_invoices.py:60-133 | A rescan in any order finds nothing after a move run iff there was nothing to do, or the target is outside the root, can be created, and no move failed |
| Dedup.CounterKeepsSuffix | scripts/remove_duplicate_invoices.py:54 | A counter before the suffix keeps the suffix, so a renamed file still matches the scan |
| DedupRules.MoveExactly | scripts/remove_duplicate_invoices.py:45-57 | A move puts the bytes in the target directory under the own name if it is free, else with the first free counter before the suffix; it makes the target and its parents and touches nothing else |
| DedupRules.FailedMove | scripts/remove_duplicate_invoices.py:121-133 | A failed move is not counted; a denied one changes no file, but may have made the target |
| DedupRules.HalfDoneMove | scripts/remove_duplicate_invoices.py:125 | A half-done move adds its copy under a free name in the target and touches no other file |
| DedupRules.BlockedMove | scripts/remove_duplicate_invoices.py:46 | If the target or a parent of it is a regular file, a move fails and changes nothing |
| Dedup.MovingInsideNeverConverges | scripts/remove_duplicate_invoices.py:120-133 | With the target at or under the root, a move run never lowers the number of duplicates, and leaves it the same if nothing is half-done |
| DedupScript.Volume.HashFile | scripts/remove_duplicate_invoices.py:22-31 | Reading in chunks hashes the whole file |
| DedupScript.Volume.IterInvoiceFiles | scripts/remove_duplicate_invoices.py:34-42 | The scan lists, once each, exactly the files under root whose suffix is wanted |
| DedupRules.ScanExactly | scripts/remove_duplicate_invoices.py:34-42 | Scanned iff a file below root whose name is a stem, a dot and one of the extensions, each given with or without its dot, all in any letter case; no extensions, every file |
| DedupRules.DefaultExtension | scripts/remove_duplicate_invoices.py:81-87 | The default extension takes every name that ends in ".pdf", in any letter case, after a stem |
| DedupScript.Volume.EnsureUnique | scripts/remove_duplicate_invoices.py:45-57 | The name returned is free and is the one the naming rule determines |
| DedupScript.Volume.PlanDedup | scripts/remove_duplicate_invoices.py:60-73 | The dictionary loop computes the plan defined by earlier paths with the same digest, and counts the scan |
| DedupScript.Volume.RemoveOrMove | scripts/remove_duplicate_invoices.py:122-133 | One pass leaves the files, directories and verdict of the step that the theorems are about |
| DedupScript.Volume.Run | scripts/remove_duplicate_invoices.py:101-135 | The whole script: a missing root or a dry run changes nothing, otherwise the plan is applied in order |
| PdfGate.ReadPage | archive/graph_invoice_finder.v3.9.1.py:180-199 | One page adds its keyword hits and terms, English on lower-cased text and Hebrew on the text as it is |
| PdfGate.PdfKeywordStats | archive/graph_invoice_finder.v3.9.1.py:172-205 | The reading loop with its early exit, over pages up to the first unreadable one |
| PdfGate.ReadableExactly | archive/graph_invoice_finder.v3.9.1.py:178-205 | The pages read are those up to the first that raises |
| PdfGate.BeforeNegativeExactly | archive/graph_invoice_finder.v3.9.1.py:201-202 | The pages before the first with a negative hit |
| PdfGate.DecidePdfRelevance | archive/graph_invoice_finder.v3.9.1.py:518-526 | The verdict is the predicate that VerdictMeaning explains |
| PdfGate.ScanNeverNegative | archive/graph_invoice_finder.v3.9.1.py:201-202 | Where the early exit leaves the two counters, over all page sequences |
| PdfGate.VerdictMeaning | archive/graph_invoice_finder.v3.9.1.py:172-205 | Accepted iff no page is negative (and, untrusted, some hit exists) or three positive hits precede the first negative page |
| PdfGate.NegativeAccepted | archive/graph_invoice_finder.v3.9.1.py:518-526 | A document with a negative page is accepted exactly when three positive hits come before it |
| PdfGate.NegativeAcceptedExample | archive/graph_invoice_finder.v3.9.1.py:201-202 | Such a document, against the rule in the header (line 12) |
| PdfGate.NoPageIsRejected | archive/graph_invoice_finder.v3.9.1.py:172-178 | Without PyMuPDF, or with an unreadable first page, accepted iff trusted |
| PdfGate.NeutralAcceptedExample | archive/graph_invoice_finder.v3.9.1.py:524-525 | A document without keywords, accepted if trusted and rejected if not |
| PdfGate.PositiveWords | archive/graph_invoice_finder.v3.9.1.py:181-190 | A page's positive hits are the listed words that occur, English in lower case and Hebrew as it is; some exactly if the text test finds one |
| PdfGate.NegativeWords | archive/graph_invoice_finder.v3.9.1.py:191-199 | So with the negative words |
| PdfGate.OnePageVerdict | archive/graph_invoice_finder.v3.9.1.py:518-526 | One readable page is accepted iff it has no negative word and is trusted or has a positive one |
| PdfGate.HebrewAcceptedExample | archive/graph_invoice_finder.v3.9.1.py:187-190 | A page with one Hebrew word is accepted |
| PdfGate.ShouldConsiderExact | archive/graph_invoice_finder.v3.9.1.py:510-515 | A message text passes the gate iff it has no negative hit and a positive or municipal one |
| DownloadRun.SanitizeFilename | archive/graph_invoice_finder.v3.9.1.py:80-82 | The result is not empty and has no character that separates paths or is otherwise forbidden |
| DownloadRun.ForbiddenExactly | archive/graph_invoice_finder.v3.9.1.py:81 | The nine forbidden characters |
| DownloadRun.ReplaceForbiddenExact | archive/graph_invoice_finder.v3.9.1.py:81 | Other characters are kept and each maximal run of forbidden ones becomes one underscore |
| DownloadRun.SanitizeKeepsClean | archive/graph_invoice_finder.v3.9.1.py:80-82 | A name without forbidden characters is only trimmed; a blank one becomes the default |
| DownloadRun.SanitizeIdempotent | archive/graph_invoice_finder.v3.9.1.py:80-82 | Cleaning a name twice is cleaning it once |
| DownloadRun.ShortMsgTag | archive/graph_invoice_finder.v3.9.1.py:85-87 | The tag has one to eight letters and digits |
| DownloadRun.AlnumExactly | archive/graph_invoice_finder.v3.9.1.py:86 | The characters a tag is made of |
| DownloadRun.ShortMsgTagIgnores | archive/graph_invoice_finder.v3.9.1.py:86 | Other characters of the id do not matter, wherever they stand |
| DownloadRun.ShortMsgTagIsTail | archive/graph_invoice_finder.v3.9.1.py:87 | The tag is the last eight letters and digits of the id, all of them if fewer, "msg" if none |
| DownloadRun.UniquePath | archive/graph_invoice_finder.v3.9.1.py:90-104 | The path is free, directly inside its directory, and the plain tagged name if free, else the smallest counter from 2 |
| DownloadRun.UniquePathIsChild | archive/graph_invoice_finder.v3.9.1.py:90-104 | The invented name has no slash, so the file is a direct child whatever name the mail gave |
| DownloadRun.UniquePathWithExtension | archive/graph_invoice_finder.v3.9.1.py:93-104 | The name is the cleaned stem, two underscores, the tag and the extension, then counters from 2 |
| DownloadRun.UniquePathWithoutExtension | archive/graph_invoice_finder.v3.9.1.py:95-98 | A name without an extension gets ".pdf" |
| DownloadRun.UniquePathHasTag | archive/graph_invoice_finder.v3.9.1.py:97-98 | In every case the tag is in the name |
| DownloadRun.StoreEffect | archive/graph_invoice_finder.v3.9.1.py:625-678 | Handling a blob touches only the scratch file and a path that did not exist, which then holds the blob; saved iff gate passed, quarantined iff not |
| DownloadRun.OfferCrashesExactly | archive/graph_invoice_finder.v3.9.1.py:703-711 | A file ends the run iff it comes from a link, is new, and cannot be written or stored; so no attachment does |
| DownloadRun.LinkCrashesExactly | archive/graph_invoice_finder.v3.9.1.py:724-902 | A link ends the run iff its new file cannot be written or stored, or its Bezeq page raises |
| DownloadRun.AttachmentsReach | archive/graph_invoice_finder.v3.9.1.py:618-711 | The attachment loop is a chain of atomic transitions on offered files |
| DownloadRun.LinksReach | archive/graph_invoice_finder.v3.9.1.py:724-902 | So is the link loop |
| DownloadRun.MessageReach | archive/graph_invoice_finder.v3.9.1.py:583-912 | So is the handling of one message |
| DownloadRun.RunReach | archive/graph_invoice_finder.v3.9.1.py:583-912 | So is a run: an invariant of the transitions holds in every state of it |
| DownloadRun.CrashStays | archive/graph_invoice_finder.v3.9.1.py:741-743 | After an uncaught failure nothing more happens |
| DownloadRunSafety.OfferKeepsRows | archive/graph_invoice_finder.v3.9.1.py:625-700 | One file handled keeps: old files intact, rows on disk, digest set exact |
| DownloadRunSafety.OfferKeepsReport | archive/graph_invoice_finder.v3.9.1.py:627-700 | One file handled keeps: report successes equal rows, entries truthful |
| DownloadRunSafety.AtomicKeepsSound | archive/graph_invoice_finder.v3.9.1.py:583-912 | Every transition keeps the whole invariant |
| DownloadRunSafety.AlwaysSound | archive/graph_invoice_finder.v3.9.1.py:579-912 | In every reachable state: nothing outside `_tmp` changed, saved files are new direct children, `seen_hashes` is exact and its digests pairwise different, report and rows agree, every entry is true of the disk or, if a failure, of an item that does fail, every rejected row has its cause, and a crash has a link that can cause it |
| DownloadRunSafety.RunIsSound | archive/graph_invoice_finder.v3.9.1.py:583-912 | In particular at the end of any run on any messages |
| DownloadRunSafety.EarlierSurvives | archive/graph_invoice_finder.v3.9.1.py:583-912 | Between any two moments of a run, files outside `_tmp` keep their bytes and no record is lost: no overwriting |
| DownloadRunSafety.SavedFilesAreOffered | archive/graph_invoice_finder.v3.9.1.py:677-700 | Each saved path still holds the very blob its message offered, from the source in the row, that blob passed the gate, and the name carries the message's tag |
| DownloadRunSafety.SavedHaveNoDuplicates | archive/graph_invoice_finder.v3.9.1.py:626-635 | The dedup plan over saved files, in any order, is empty |
| DownloadRunSafety.SavedAttachmentsPassedKeywords | archive/graph_invoice_finder.v3.9.1.py:641-674 | With `--verify` every saved attachment's pages satisfy the keyword rule |
| DownloadRunSafety.NoScratchLeft | archive/graph_invoice_finder.v3.9.1.py:637-678 | If no file operation fails, `_tmp` gains no file |
| DownloadRunLedger.AttachmentsLedger | archive/graph_invoice_finder.v3.9.1.py:618-711 | One report entry per PDF-looking attachment, whatever happens to it |
| DownloadRunLedger.LinksLedger | archive/graph_invoice_finder.v3.9.1.py:724-902 | The links of a message save at most one file and report at most once each |
| DownloadRunLedger.MessageLedger | archive/graph_invoice_finder.v3.9.1.py:583-912 | One message: its entries by kind and order, links only if no attachment was saved, exactly which rejected rows; no trace if it fails the message gate |
| DownloadRunLedger.OfferOutcome | archive/graph_invoice_finder.v3.9.1.py:625-701 | Whatever fails, a file is saved exactly when its digest is new, it meets no failure and it passes the gate |
| DownloadRunLedger.AttachmentsOutcome | archive/graph_invoice_finder.v3.9.1.py:618-711 | Some attachment is saved exactly when one could be with the digests known before |
| DownloadRunLedger.LinksOutcome | archive/graph_invoice_finder.v3.9.1.py:724-902 | The first link that can be saved or ends the run decides: its file is saved and nothing else, or the run ends |
| DownloadRunLedger.MessageOutcome | archive/graph_invoice_finder.v3.9.1.py:583-912 | Whether a message saves something, and whether it ends the run, from its contents and the known digests alone |
| DownloadRunLedger.RunCrashesExactly | archive/graph_invoice_finder.v3.9.1.py:583-912 | A run ends early iff it gets to a message that ends it |
| DownloadRunLedger.RunDoesNotCrash | archive/graph_invoice_finder.v3.9.1.py:583-912 | If no link can fail, read off the mailbox and the directories at the start, the run goes through |
| DownloadRunLedger.FineRunDoesNotCrash | archive/graph_invoice_finder.v3.9.1.py:583-912 | In particular if nothing fails and the scratch paths are free |
| DownloadRunLedger.FailingLinkExample | archive/graph_invoice_finder.v3.9.1.py:741-743 | A link whose file cannot be written ends the run: nothing is saved or reported, whatever messages follow |
| DownloadRunLedger.NothingOverwritten | archive/graph_invoice_finder.v3.9.1.py:583-912 | From any message on, the rest of the run overwrites and removes nothing outside `_tmp` and loses no record |
| DownloadRunLedger.NoAttachmentLost | archive/graph_invoice_finder.v3.9.1.py:618-701 | If the run gets to its message, at the end some saved file has the digest of every acceptable attachment, even if the run crashes later |
| DownloadRunLedger.NoAttachmentLostFromInputs | archive/graph_invoice_finder.v3.9.1.py:618-701 | It does if no link of an earlier message can fail |
| DownloadRunTrust.SavedDirectLink | archive/graph_invoice_finder.v3.9.1.py:744-819 | A row from a direct link: a message with its id has a link with these bytes, whose pages satisfy the keyword rule, the trusted one only for a listed provider or a municipal word |
| DownloadRunTrust.SavedBezeqLink | archive/graph_invoice_finder.v3.9.1.py:822-902 | A Bezeq row comes from a link on a Bezeq host that gave no PDF itself |
| DownloadRunTrust.SavedAttachment | archive/graph_invoice_finder.v3.9.1.py:618-700 | A row from an attachment: a message with its id has a PDF-looking attachment with these bytes, whose pages satisfy the untrusted rule |
| DownloadRunTrust.QuarantinedFile | archive/graph_invoice_finder.v3.9.1.py:645-659 | A quarantined file lies in `quarantine` below the invoice directory and its pages fail the untrusted rule |
| DownloadRunTrust.NeutralLinkSavedExactly | archive/graph_invoice_finder.v3.9.1.py:745-752 | A PDF without keywords behind a link of an invoice message is saved iff the host is listed |
| DownloadRunTrust.LinkSavesExactly | archive/graph_invoice_finder.v3.9.1.py:724-902 | Over the fields of message and link: when a link is saved |
| DownloadRunTrust.LinkEndsRunExactly | archive/graph_invoice_finder.v3.9.1.py:724-902 | Over the same fields: when it ends the run |
| DownloadRunTrust.FailureLeaves | archive/graph_invoice_finder.v3.9.1.py:637-678 | What a failed write or store leaves: nothing, part of the file or all of it, under the scratch name |
| DownloadRunTrust.AttachmentSavesExactly | archive/graph_invoice_finder.v3.9.1.py:618-674 | Over the fields of an attachment: when it is saved |
| DownloadRunTrust.LooksPdfExactly | archive/graph_invoice_finder.v3.9.1.py:619-622 | An attachment counts as a PDF by its content type, its name, or for want of a name |
| DownloadRunTrust.ConsideredExactly | archive/graph_invoice_finder.v3.9.1.py:596-597 | Which messages are looked at, by their words |
| DownloadRunTrust.NegativeWordRejects | archive/graph_invoice_finder.v3.9.1.py:510-513 | One negative word in subject or preview, and a message without attachments leaves no trace |
| FinderScript.Finder.EnsureUniquePath | archive/graph_invoice_finder.v3.9.1.py:90-104 | The loop returns the path the naming rule determines |
| FinderScript.Finder.StoreBlob | archive/graph_invoice_finder.v3.9.1.py:625-678 | Statement by statement, the transition's disk and verdict |
| FinderScript.Finder.HandleOffer | archive/graph_invoice_finder.v3.9.1.py:625-711 | The whole new state, records included, is the transition's |
| FinderScript.Finder.ProcessAttachments | archive/graph_invoice_finder.v3.9.1.py:618-711 | The attachment loop reaches the state of the model and reports whether anything was saved |
| FinderScript.Finder.ProcessLinks | archive/graph_invoice_finder.v3.9.1.py:723-902 | The link loop, stopping at the first saved file or at a failure |
| FinderScript.Finder.ProcessMessage | archive/graph_invoice_finder.v3.9.1.py:583-912 | One iteration of the message loop |
| FinderScript.Finder.RunAll | archive/graph_invoice_finder.v3.9.1.py:579-912 | The message loop ends in the state the safety theorems speak of |
| UrlNormal.NeverLonger | archive/graph_invoice_finder.v3.9.1.py:339-344 | Normalising never lengthens a URL |
| UrlNormal.LiteralReplaceIsRedundant | archive/graph_invoice_finder.v3.9.1.py:342-343 | The literal `//?` replacement before the regex makes no difference |
| UrlNormal.NormalizeShape | archive/graph_invoice_finder.v3.9.1.py:339-344 | No host followed by two or more slashes and `?` is left |
| UrlNormal.IdempotentExactly | archive/graph_invoice_finder.v3.9.1.py:339-344 | Idempotent at a URL iff no `?`, `&` or `=` in it follows two backslashes |
| UrlNormal.FixedExactly | archive/graph_invoice_finder.v3.9.1.py:339-344 | A URL is left alone iff it is trimmed, has no escaped `?`, `&`, `=` and no long run of slashes |
| UrlRules.SlashesBecomeOne | archive/graph_invoice_finder.v3.9.1.py:342-343 | Any number of slashes between the host and `?` becomes one |
| UrlRules.EscapeIsDropped | archive/graph_invoice_finder.v3.9.1.py:341 | A backslash before `?`, `&` or `=` is dropped |
| UrlRules.PaddedUrl | archive/graph_invoice_finder.v3.9.1.py:340 | Space around the URL does not matter |
| UrlRules.LongRunExactly | archive/graph_invoice_finder.v3.9.1.py:343 | What the theorems call a long run: the literal host, two or more slashes, `?` |
| UrlRules.PairExactly | archive/graph_invoice_finder.v3.9.1.py:341 | What they call pairs and triples: one or two backslashes before the character |
| InvoiceText.OnlyLooseHits | archive/graph_invoice_finder.v3.7.4.py:810-812 | In a text without strict keywords only tokens that contain none can be hit |
| InvoiceText.SevenLooseEnglish | archive/graph_invoice_finder.v3.7.4.py:102-130 | Only seven English tokens contain no strict keyword |
| InvoiceText.WithoutStrictAtMost44 | archive/graph_invoice_finder.v3.7.4.py:806-816 | A text without a strict keyword scores at most 0.44 |
| InvoiceText.WithStrictAtLeast52 | archive/graph_invoice_finder.v3.7.4.py:806-816 | A text with one scores at least 0.52 |
| InvoiceText.StrictHasRoot | archive/graph_invoice_finder.v3.7.4.py:757-765 | A strict keyword occurs iff one of four words does |
| InvoiceText.StrictVerdict | archive/graph_invoice_finder.v3.7.4.py:806-832 | At the strict threshold, and from 0.45 to 0.52, accepted iff a strict keyword occurs |
| InvoiceText.LooseTextScores44 | archive/graph_invoice_finder.v3.7.4.py:806-816 | A keyword-free text that reaches 0.44 |
| InvoiceText.BareInvoiceScores52 | archive/graph_invoice_finder.v3.7.4.py:806-816 | A keyword text that gets no more than 0.52 |
| InvoiceText.ThresholdsThatMeanStrict | archive/graph_invoice_finder.v3.7.4.py:76-80 | The test has that meaning at a threshold iff it lies from 0.45 to 0.52 |
| InvoiceText.JoinContains | archive/graph_invoice_finder.v3.7.4.py:784 | A keyword is in the joined text iff it is in one of the pages |
| InvoiceText.ExtractedKeyword | archive/graph_invoice_finder.v3.7.4.py:768-803 | Joining, stripping and lower-casing neither hide nor create one of the four words |
| InvoiceText.StrictVerdictOnFile | archive/graph_invoice_finder.v3.7.4.py:819-833 | A file is accepted iff present, at least 6000 bytes, and one of four words is on a readable page among the first three |
| InvoiceTextRules.VerdictOnPages | archive/graph_invoice_finder.v3.7.4.py:768-833 | Accepted iff at least 6000 bytes and one of pages 1 to 3 says one of the four words, by the first engine that sees any text there; unreadable pages are skipped |
| InvoiceTextRules.WordOnPage | archive/graph_invoice_finder.v3.7.4.py:768-803 | A word on page 1, 2 or 3 is enough, with either engine |
| InvoiceTextRules.VerdictWithoutThreshold | archive/graph_invoice_finder.v3.7.4.py:822-829 | Without a threshold only the size counts; a missing file fails |
| InvoiceTextRules.ScoreExactly | archive/graph_invoice_finder.v3.7.4.py:806-816 | The score of a text in numbers of listed words |
| Confidence.ScoreLinks | archive/graph_invoice_finder.v3.7.4.py:360-395 | Kept links are exactly the usable ones with some sign, in body order without repeats; the score depends on three facts about them and not on tracking domains |
| Confidence.MoreLinksScoreMore | archive/graph_invoice_finder.v3.7.4.py:360-395 | More links, in any order and repeated, never score less |
| ConfidenceRules.OneLinkScore | archive/graph_invoice_finder.v3.7.4.py:385-395 | What one link is worth by its signs |
| ConfidenceRules.LinksTogether | archive/graph_invoice_finder.v3.7.4.py:360-395 | Two lists of links together score at least the larger and at most the sum |
| ConfidenceRules.KeptInOrder | archive/graph_invoice_finder.v3.7.4.py:383-384 | Links are kept in body order |
| ConfidenceRules.LinkSignsExactly | archive/graph_invoice_finder.v3.7.4.py:377-380 | The signs: listed words in URL or path, a PDF suffix |
| ConfidenceRules.UsableExactly | archive/graph_invoice_finder.v3.7.4.py:369-374 | Usable: https, or http on an allowed domain |
| ConfidenceRules.TrustedExactly | archive/graph_invoice_finder.v3.7.4.py:334-340 | Trusted: a listed domain or below one, in any letter case |
| ConfidenceRules.UnderRootExactly | archive/graph_invoice_finder.v3.7.4.py:343-348 | Below a domain: it ends in a dot and the domain |
| Confidence.ApplySenderBoost | archive/graph_invoice_finder.v3.7.4.py:709-725 | The rule loop adds up the rules' contributions and clamps; no rules is no change |
| ConfidenceRules.RuleExactly | archive/graph_invoice_finder.v3.7.4.py:716-724 | A rule is worth 0.20 for the sender's domain, 0.25 for the address, nothing otherwise, taken away unless its sign is "+" |
| ConfidenceRules.DomainRule | archive/graph_invoice_finder.v3.7.4.py:721-722 | "+@domain" adds 0.20 and "-@domain" takes it |
| ConfidenceRules.AddressRule | archive/graph_invoice_finder.v3.7.4.py:723-724 | "+address" adds 0.25 and "-address" takes it |
| ConfidenceRules.DefaultRule | archive/graph_invoice_finder.v3.7.4.py:83-85 | The rule the program starts with adds 0.20 for every sender at bezeq.co.il |
| ConfidenceRules.PaddedRule | archive/graph_invoice_finder.v3.7.4.py:716-718 | Blank rules count for nothing and padding does not matter |
| ConfidenceRules.MoreRules | archive/graph_invoice_finder.v3.7.4.py:709-725 | Wherever it stands, one more "+" rule never lowers a confidence, any other never raises it |
| Confidence.ApplyNegativeKeywords | archive/graph_invoice_finder.v3.7.4.py:728-736 | No list, no change; otherwise the confidence nearest to the base less 0.08 per keyword found, never above the base, never further below |
| Confidence.MoreRegexesNeverHurt | archive/graph_invoice_finder.v3.7.4.py:739-746 | More subject expressions never lower a confidence, add at most 0.20, and nothing once one matches |
| Confidence.MoreAttachmentsNeverHurt | archive/graph_invoice_finder.v3.7.4.py:678 | More attachments never lower a confidence unless they bring the first notice, and add at most 0.43 |
| Confidence.Combine | archive/graph_invoice_finder.v3.7.4.py:1580-1594 | The steps of `main` in order equal one function of ten summands |
| Confidence.Score | archive/graph_invoice_finder.v3.7.4.py:1550-1594 | A message's confidence is that function of its ten summands |
| Confidence.PipelineMonotone | archive/graph_invoice_finder.v3.7.4.py:1580-1594 | Always between 0 and 1, and growing in every summand |
| Confidence.PipelineSlope | archive/graph_invoice_finder.v3.7.4.py:1580-1594 | Raising summands raises the confidence by no more than they were raised |
| Confidence.PipelineNonExpansive | archive/graph_invoice_finder.v3.7.4.py:1580-1594 | For any two messages, the difference is bounded by the excess of one's summands over the other's |
| Confidence.MoreLinksNeverHurt | archive/graph_invoice_finder.v3.7.4.py:1550-1594 | Adding, reordering or repeating body URLs never lowers a confidence |
| Confidence.MoreNegativesNeverHelp | archive/graph_invoice_finder.v3.7.4.py:728-736 | More negative keywords never raise it and cost at most 0.08 each |
| Confidence.StrongSubjectHits | archive/graph_invoice_finder.v3.7.4.py:434-438 | A strong subject's word is counted by the language score too |
| Confidence.StrongAndTrusted | archive/graph_invoice_finder.v3.7.4.py:1580-1594 | Strong subject and a usable trusted link give at least 0.80 less sender and keyword deductions, 0.75 if an attachment is a notice |
| Confidence.StrongAndTrustedPasses | archive/graph_invoice_finder.v3.7.4.py:1596-1599 | So such a message clears 0.55 unless those deductions exceed 0.25, or 0.20 with a notice |
| ConfidenceRules.LanguageExactly | archive/graph_invoice_finder.v3.7.4.py:415-424 | Each listed word counts once, Hebrew 0.06 and English 0.05, up to 0.80 |
| ConfidenceRules.SubjectBonuses | archive/graph_invoice_finder.v3.7.4.py:434-445 | When a subject is worth 0.35, and when 0.20 more |
| ConfidenceRules.AttachmentBonuses | archive/graph_invoice_finder.v3.7.4.py:448-471 | What attachments are worth: 0.25, 0.18 more, 0.25 less |
| ConfidenceRules.NumberedPdfExactly | archive/graph_invoice_finder.v3.7.4.py:467 | The municipal file name: six or more digits and ".pdf" |
| ConfidenceRules.KeywordAndRegexSummands | archive/graph_invoice_finder.v3.7.4.py:728-746 | Each negative keyword found costs 0.08, any matching subject expression is worth 0.20 in all |
| ConfidenceRules.PlainSum | archive/graph_invoice_finder.v3.7.4.py:1566-1594 | While no cap is met the confidence is the plain sum |
| ConfidenceRules.CapsInOrder | archive/graph_invoice_finder.v3.7.4.py:1566-1594 | Which cap comes where, by examples |
| Crawl.CrawlHtmlForPdf | archive/graph_invoice_finder.v3.7.4.py:1066-1142 | The recursive loop ends on every link graph and returns the crawl list |
| Crawl.CrawlCandidates | archive/graph_invoice_finder.v3.7.4.py:1107-1134 | The descent into candidate pages, in order |
| Crawl.SubmitForms | archive/graph_invoice_finder.v3.7.4.py:1136-1140 | Form results without the failed ones |
| Crawl.CrawlExact | archive/graph_invoice_finder.v3.7.4.py:1066-1142 | Without repeats, exactly the URLs emitted by pages fewer than `depth` HTML hops away |
| Crawl.CrawlMonotone | archive/graph_invoice_finder.v3.7.4.py:1066-1142 | A deeper crawl, or one that submits forms, finds everything a shallower one does |
| Crawl.CrawlSaturates | archive/graph_invoice_finder.v3.7.4.py:1077-1078 | Once all reachable pages are within the depth, more depth finds nothing new |
| FetchLink.InvoiceDir.DownloadPdf | archive/graph_invoice_finder.v3.7.4.py:865-896 | Succeeds iff a body of at least 6000 bytes arrives; touches only its file; a tidy failure leaves nothing |
| FetchLink.InvoiceDir.TryCandidate | archive/graph_invoice_finder.v3.7.4.py:1209-1219 | Succeeds iff the link downloads and verifies; otherwise its file is gone |
| FetchLink.InvoiceDir.TryHtml | archive/graph_invoice_finder.v3.7.4.py:1222-1280 | The HTML path: the first acceptable of PDF links, then deep links, and only its file is left |
| FetchLink.InvoiceDir.TryAll | archive/graph_invoice_finder.v3.7.4.py:1253-1280 | The first acceptable candidate wins, and only its file is left |
| FetchLink.InvoiceDir.FetchInvoice | archive/graph_invoice_finder.v3.7.4.py:1187-1285 | An insecure link is not tried; otherwise the first acceptable of the link itself, PDF links and deep links wins; a None result leaves no file of this call |
| FetchLink.AcceptsExactly | archive/graph_invoice_finder.v3.7.4.py:1209-1213 | At the strict threshold a download is accepted iff a body of at least 6000 bytes arrives with one of four words on the pages looked at |
| FetchLink.FetchedIsInvoice | archive/graph_invoice_finder.v3.7.4.py:1209-1213 | So every fetched file has the size and one of the words |
| FetchLink.NoneMeansNothingThere | archive/graph_invoice_finder.v3.7.4.py:1199-1280 | None on a secure link means it was tried in vain and, on a readable page, so was every PDF link on it and every URL emitted less than two hops away |
| FetchRules.TriedExactly | archive/graph_invoice_finder.v3.7.4.py:1232-1280 | After the link itself exactly these are tried: the PDF links of its page, and with the deep crawl what is on the page or one hop behind it, by the texts of the URLs |
| FetchRules.NothingMissed | archive/graph_invoice_finder.v3.7.4.py:1066-1142 | None on an HTML page means all of that was downloaded in vain |
| FetchRules.AcceptableIsFetched | archive/graph_invoice_finder.v3.7.4.py:1187-1285 | If one of them is an acceptable PDF, something is fetched |
| FetchRules.AttemptsInOrder | archive/graph_invoice_finder.v3.7.4.py:1253-1259 | The link first, then the PDF links of its page in order, under numbered names |
| FetchRules.AttemptsNumbered | archive/graph_invoice_finder.v3.7.4.py:1253-1262 | Attempts are numbered as they come, over both lists |
| FetchRules.CrawlOrder | archive/graph_invoice_finder.v3.7.4.py:1082-1142 | In a crawl PDF links come first, then the page's candidates, then what lies behind, then forms |
| FetchRules.SecureExactly | archive/graph_invoice_finder.v3.7.4.py:1199-1205 | Which links are secure enough to be tried |
| Bookkeeping.RunStrategy | archive/graph_invoice_finder.v3.7.4.py:553-573 | The messages of at most `max_pages` pages, in order, each stamped with the strategy |
| Bookkeeping.FetchedExactly | archive/graph_invoice_finder.v3.7.4.py:553-573 | Page by page, the messages of the first `max_pages` pages and no others |
| Bookkeeping.CounterOfStrategy | archive/graph_invoice_finder.v3.7.4.py:1490-1503 | A strategy's candidate counter is the number of messages it delivered |
| Bookkeeping.CountersAdd | archive/graph_invoice_finder.v3.7.4.py:1502 | Counters add up over the strategies, also over several with one name |
| Bookkeeping.CollectCandidates | archive/graph_invoice_finder.v3.7.4.py:1490-1507 | The table holds every fetched id once, with its first fetch in strategy order; counters count all fetched messages |
| Bookkeeping.AddMessages | archive/graph_invoice_finder.v3.7.4.py:1504-1507 | One more strategy extends the table without disturbing earlier entries |
| Bookkeeping.ProcessFates | archive/graph_invoice_finder.v3.7.4.py:1601-1699 | Log entries appear under the message's id, and "saved any" holds iff a saved entry was written |
| Bookkeeping.ProcessCandidates | archive/graph_invoice_finder.v3.7.4.py:1539-1706 | Rows are exactly the qualifying ids once each, their ids are those in the saved log, non-matches are the other in-window ids, counters count rows |
| Bookkeeping.RowsExactly | archive/graph_invoice_finder.v3.7.4.py:1539-1706 | A row iff in the window, confident enough and something saved; a non-match iff in the window but not so |
| Bookkeeping.RowCountIsNumber | archive/graph_invoice_finder.v3.7.4.py:1700-1706 | A final count is the number of rows of its strategy |
| Bookkeeping.CountsAddUp | archive/graph_invoice_finder.v3.7.4.py:1759-1773 | With distinct strategy names the summary's counts add up to the rows |
| Bookkeeping.BooksBalance | archive/graph_invoice_finder.v3.7.4.py:1539-1773 | Distinct row ids equal saved ids; each row has the first strategy that fetched it; final counts sum to the rows |
| Bookkeeping.Run | archive/graph_invoice_finder.v3.7.4.py:1490-1706 | Both loops together: the table of first fetches, candidate counters over all fetched messages, balanced books, final counts that sum to the rows |
| MergeById.MergeUniqueById | archive/graph_invoice_finder.v1.py:384-390 | The dictionary loop computes the merge, entries keeping their first position |
| MergeById.MergeExact | archive/graph_invoice_finder.v1.py:384-390 | One row per id in first-appearance order, each the earliest of maximal confidence |
| MergeById.MergeDetermined | archive/graph_invoice_finder.v1.py:384-390 | No other list has these two properties |
| MergeById.MergeIncremental | archive/graph_invoice_finder.v1.py:384-390 | Merging a merged list with more rows is merging all at once; merging twice is merging once |

## Left out

- Graph and MSAL access, pagination of messages, argument parsing, printing, JSON and CSV output: input and output only. The final report files of v3.9.1 are written to user-chosen paths after the modelled run.
- Browser-driven Bezeq fetching: its result is an input; the trace archives it may write into the invoice directory are not part of this model.
- HTML parsing and the regexes that find links in pages and bodies: a page is given by what they find.
- PDF engines: a PDF is given by its page texts; `pdf_engine` choices appear only as which engine yields pages.
- SHA-256 itself, and dates: the window test of v3.7.4 is an input per message.
- IEEE rounding of the scores: hundredths are exact integers here.
- `str.lower` and `str.strip` beyond ASCII letters and whitespace; Unicode digits and a trailing newline in the numbered-PDF test of v3.7.4.
- Row fields that are only copied (subject, sender, dates, links, statistics and notes in report entries), and the final sort of v3.7.4 rows.
- `prefers_attachment` and attachment listing errors of v3.7.4: the attachment hits are an input.
- An exception in the middle of v3.7.4 `main`: its accounting is stated for runs that finish.
- The v3.7.4 file names of attachments, which may overwrite one another: v3.9.1 is the version that promises not to.
- FetchLink.InvoiceDir.FetchInvoice: the no-leftover clause is stated for candidates that do not break off after writing and whose files can be removed; which leftovers remain otherwise is bounded only by the names tried.
- Other versions of the finders and the dashboards: repeated forms of the same functions, or user interface.
