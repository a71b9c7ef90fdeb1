# Collector Security Analyzer: verified protocol core

A Dafny model of the parts of the repository in which a mistake costs most: the canonical
encodings and the evidence package, the hash-chained audit logs, the validation planner, the
one-use grants, the submission protocol, the collection lifecycle with its crashes, the
throttles, the wire formats, and the choice of the latest submission. `dafny verify
dfyconfig.toml` checks all of it.

Code that computes is functions and lemmas. Code that changes state is a class whose methods
are proved equal to a specification function of the old state; the lemmas are about that
function, over every run of operations where the property is about runs. The files named Rules,
and PrintedForm and JsonGrammar, say what the operations do without naming them: in the fields,
rows, bytes and characters that go in and come out.

| files | subject |
|---|---|
| Wrappers, Ordering, TextSets, Times, Unicode | results, stable sorting, sets as lists, clock readings, UTF-8 and UTF-16 |
| Json, Canonical, PythonValues, PrintedText, Fields | values, printer, parser, canonical forms, `==` and `str`, dict fields |
| PrintedForm, JsonGrammar, PythonRules | which text is printed for a value and which texts are read, without printer or parser; `==`, `bool` and `str` likewise |
| TrustEncoding, CompactScanner | `trust_bytes`, `_is_compact_json` |
| Package, PackageMeaning, PackageBuild, PackageVerdicts | the evidence package's validator, what its answers mean, its builder, its place in the submission protocol |
| PackageRules, ArchiveRules, BuildRules | its answers, and what the builder writes, in the fields of archive and documents |
| AuditChain, AuditEntry, ConsoleAudit, ActiveAudit, AuditRules | the audit logs and the archive's check |
| ValidatorRegistry, DependencyClosure, DependencyOrder, OrderRules, Planner, PlanDigest, PlannerRules | planning |
| TrustedGrants, GrantStore, GrantRuns, GrantRules | the grant database, its transactions, their runs, what each transaction needs and leaves |
| Submissions, SubmissionConsole, SubmissionRuns, SubmissionSafety, SubmissionRules, GrantMatching | the submission protocol |
| LabLifecycle, LabService | the collection lifecycle |
| PortalThrottle, RateLimiter | the two time-window limiters |
| NameWire, NameRules, NtlmWire, NtlmRules | LLMNR, NetBIOS and NTLM bytes |
| LatestSubmissions | fleet and dashboard |

## How the world enters

Hashes, HMAC, deflated sizes, the evidence schema and the sensitive-data scanner are function
parameters. No hash is assumed collision-free, so each commitment lemma ends in "or here are
two distinct inputs with one hash"; a hash is assumed hexadecimal where an audit log reads its
own lines back and free of surrogates in `BuildExact`, and the scanner indifferent to key order
where a built package is read back. A float is
the text that is printed for it. How a token with a fraction or an exponent is rounded and which
integer a float equals are parameters with three laws: what is printed is a number with a
fraction or an exponent or one of the three words, reading what is printed gives the same
float, and two floats that equal one integer differ at most in the sign of zero. Clock readings
are `real` parameters, one for each call the code makes: the grant and submission results hold
for any readings, the two limiters for a clock that does not run backwards. Random IDs, nonces
and tokens are parameters; a repeated one hits the same UNIQUE or primary key it would hit in
the database. Files and tables are maps. Text is a sequence of code points, bytes are numbers
below 256.

## What turned out not to hold as stated

- A value cannot always be told from what follows it: a non-zero integer followed by a digit
  decodes differently. `TrustPrefixDecodes` gives the exact condition.
- Appending to the console audit log does not always keep it verifiable. `json.dumps` leaves
  U+0085, U+2028 and U+2029 alone and `str.splitlines` breaks lines at them, so one such
  character in an event, such as a customer reference, ends verification for good.
  `AppendVerifies`, `RunVerifies` and `BrokenStaysBroken` state it exactly.
- Equal values need not have equal canonical texts: Python calls 1, 1.0 and true equal. Texts
  agree exactly when the numbers also agree in type and in the sign of zero (`TextsAgree`).
- The quarantine is not always empty between requests: the handler in `accept` removes the file
  for package errors only, and the validator can raise something else, for a start the ZIP
  reader's own error for a damaged member. `QuarantineExact` says what lies there after every
  run, `StrandsExactly` and `UncaughtExactly` which uploads leave a file, `DamagedUploadStays`
  is one that does.
- A start that raises after the server is registered leaves a stale entry (`StartFault`,
  `StaleEntry`); resuming after a crash fails while the session is still OPEN
  (`ResumeApplied`); cleanup fails on an ARCHIVED or DRAFT session (`CleanupApplied`).
- A stop request ends the server and nothing else: the status stays COLLECTING and a start does
  nothing until a pause, a stop, a cleanup or a restart (`RunSound`, `ServedStop`). A session
  paused from the command line makes the Lab's own pause fail half way (`PausedBehind`).
- An analysed submission can show as merely received, and only when the index has it under
  another device than its analysis does. `PendingExactly` gives the exact condition,
  `DisagreementShowsAnalysed` an index.

## Model

| member | source | states |
|---|---|---|
| TrustEncoding.TrustBytesDefined | csa_lab/trusted_distribution.py:24-37 | encoding succeeds exactly on values of null, booleans, integers within 2^53-1, surrogate-free strings and keys, lists and string-keyed dicts, and then is the UTF-8 of the UTF-16-sorted compact text |
| PrintedForm.TrustBytesAre | csa_lab/trusted_distribution.py:24-37 | the bytes are the UTF-8 of the one text of the value, spelled out character by character without the printer, whose keys ascend by UTF-16 unit |
| PrintedForm.CanonicalJsonIs | csa_console/canonical.py:28-57 | the canonical text is the one compact text of the value, spelled out the same way, whose keys ascend by code point |
| PrintedForm.SpelledPrints | csa_console/canonical.py:49-57 | a text is printed for a value exactly when it is spelled so: two-character escapes for quote, backslash and five control characters, four lower-case digits for other control characters, surrogate pairs where ASCII is asked for, everything else as itself; decimals without leading zeros; commas, colons, brackets and no white space |
| PrintedForm.PlainString | csa_lab/trusted_distribution.py:24-37 | a string with no quote, backslash or control character is written as it stands, slashes included |
| JsonGrammar.LoadsExactly | csa_console/package.py:435-453 | a text loads as a value exactly when it is, white space aside, one of the texts of that value in the grammar of RFC 8259 and Python's three words, with each key once where first given and its last value, or unique keys where repeats are refused |
| TrustEncoding.TrustRoundTrip | csa_lab/trusted_distribution.py:24-37 | a decoder gets back every encodable value, up to the order of its keys |
| TrustEncoding.TrustInjective | csa_lab/trusted_distribution.py:24-37 | two values have one encoding if and only if they are equal with every number in one type, whatever the insertion order |
| TrustEncoding.TrustPrefixDecodes | csa_lab/trusted_distribution.py:24-37 | a reader of integer-only JSON recovers value and remainder from encoding plus remainder if and only if the value is not a non-zero integer followed by a digit |
| TrustEncoding.TrustPrefixAmbiguous | csa_lab/trusted_distribution.py:24-37 | a concrete pair for which prefix decoding fails |
| TrustEncoding.KeyOrdersDiffer | csa_lab/trusted_distribution.py:31-32 | UTF-16 and code-point key order disagree on a pair of keys exactly when the first difference sets a surrogate pair against a BMP character from U+E000 up |
| Canonical.CanonicalJsonInjective | csa_console/canonical.py:28-57 | two values, floats included, print alike exactly when they are equal and every number is in the same type |
| Canonical.CanonicalJsonStable | csa_console/canonical.py:28-57 | loading the canonical text and printing it again gives the same text and an equal value, floats included |
| PythonValues.TextsAgree | csa_console/canonical.py:28-57 | two loaded values have one canonical text exactly when Python calls them equal and their numbers agree in type and in the sign of zero: 1, 1.0 and true are equal in three texts |
| PythonValues.PyEqualIs | csa_console/package.py:226-228 | comparing by representative and text is Python's comparison of two values, in which numbers of different types may be equal and NaN is not equal to itself |
| PythonRules.PyEqualExactly | csa_console/package.py:226-228 | two values compare equal exactly when neither is NaN and numbers agree as numbers whatever their type, lists item by item, dicts key by key |
| PythonRules.TruthyExactly | active_validation/audit.py:111 | what counts as false: None, zero in any type, and what is empty |
| PythonRules.StrExactly | csa_console/package.py:222-238 | str of a value: a text is itself; anything else is spelled out character by character as repr writes it, quotes, escapes and separators included |
| Json.LoadsPrint | csa_console/canonical.py:49-57 | every printed value is loaded back as itself, written raw or escaped to ASCII, with or without skipping white space or tolerating repeated keys, its floats being those their own text stands for |
| Json.ParseFloatToken | csa_console/canonical.py:49-57 | a printed float is read back whole when what follows cannot be more of a number |
| Json.LoadsValid | csa_console/package.py:533-541 | no loaded dict has a repeated key, and every loaded float is the one its text stands for |
| Json.ParseIntText | csa_console/canonical.py:49-57 | a printed integer is read back exactly when no digit runs on from it |
| PrintedText.PrintMentions | csa_console/canonical.py:49-57 | which characters of a value appear raw in its printed text |
| PrintedText.ScalarPrint | csa_console/canonical.py:60-63 | the text can be encoded exactly when no string or key holds a lone surrogate |
| PrintedText.AsciiGraphic | active_validation/audit.py:45 | with characters escaped a printed value is printable ASCII throughout |
| CompactScanner.IsCompactJson | csa_console/package.py:544-561 | the two-flag loop computes the scan that the lemmas below are about |
| CompactScanner.CompactExact | csa_console/package.py:544-561 | the scan accepts exactly the texts that are a row of non-space characters and closed string literals |
| CompactScanner.CompactMeansTight | csa_console/package.py:435-453 | on text that loads, the scan accepts exactly what a reader that skips no white space loads |
| CompactScanner.UnclosedDoesNotLoad | csa_console/package.py:544-561 | a text the scan leaves inside a literal does not load |
| CompactScanner.PrintCompact | csa_console/package.py:544-561 | every canonical text passes the scan, for all strings including escapes and for all floats |
| CompactScanner.CanonicalTestRedundant | csa_console/package.py:435-453 | the comparison with the canonical text adds nothing to the scan |
| Ordering.SortByPermutation | csa_console/canonical.py:41-45 | sorting by an injective key forgets the order it is given |
| Ordering.LessExactly | csa_console/canonical.py:41-45 | one key is before another exactly when it is a proper prefix or smaller at the first difference |
| Unicode.Utf8RoundTrip | csa_console/canonical.py:60-63 | UTF-8 decoding inverts encoding on surrogate-free text |
| Unicode.Utf16Injective | csa_lab/trusted_distribution.py:31-32 | the UTF-16 sort key tells keys apart |
| Package.SafeMembers | csa_console/package.py:362-421 | the reading loop returns the members, the first refusal in the order the limits are tested, or the exception of a member that cannot be read |
| Package.ArchiveExact | csa_console/package.py:362-421 | an archive is read exactly when it is a ZIP within all limits, of the required files once each, none a link, inflated beyond 100 or damaged |
| Package.ArchiveRaises | csa_console/package.py:362-421 | reading raises an exception of another kind exactly when the ZIP cannot be opened, or a well-shaped one has a damaged member behind readable ones |
| Package.ValidateCapabilityResults | csa_console/package.py:511-530 | accepted exactly when every result has an ID of its own and a terminal status; raises exactly when, with all before it good, a status cannot be hashed |
| PackageMeaning.ValidationExact | csa_console/package.py:182-360 | a package validates exactly when archive and documents can be read, were made for this session, submission, profile, nonce and collector, are covered by the digest handed back, are signed with the token over it, and pass schema, status rules and scanner |
| PackageRules.PackageExact | csa_console/package.py:182-360 | a package whose documents can be read is accepted exactly when every check holds, each written out in the fields of the six documents |
| PackageRules.PackageRefused | csa_console/package.py:182-360 | the first check that fails decides the state it is rejected with, or that another exception is raised |
| PackageRules.AcceptedFields | csa_console/package.py:455-530 | an accepted manifest has schema 5.0, this assessment, session, submission and profile digest, a standard-user context and the digest handed back; the expected nonce is bound and signed, and every status is one of the eight |
| PackageRules.OtherProfileRefused | csa_console/package.py:497-501 | documents complete and named for the session but collected under another profile come from an untrusted collector |
| ArchiveRules.ArchiveRefused | csa_console/package.py:362-389 | the first test that an archive as a whole fails decides the answer |
| ArchiveRules.MemberRefused | csa_console/package.py:390-421 | the first member with something wrong, and the first thing wrong with it, decide the answer |
| ArchiveRules.MembersAre | csa_console/package.py:362-421 | an archive with nothing wrong is read into the content of each member under its name |
| ArchiveRules.DocumentExact | csa_console/package.py:435-453 | a document is read as a value exactly when its bytes are the UTF-8 of compact JSON for it; otherwise it breaks the schema |
| PackageMeaning.UncaughtExactly | csa_console/package.py:182-421 | the validator raises something other than a package error exactly when the archive raises, or the documents pass every earlier check and hold an unhashable privilege context, path or status, a listed file without a path, a surrogate to be digested or signed, or a signature that is not ASCII, or make the schema raise |
| PackageMeaning.DamagedPackageRaises | csa_console/package.py:420 | one such archive: a member whose checksum is wrong |
| PackageMeaning.PackageDigestCommits | csa_console/package.py:263-315 | two archives that validate with one package digest, floats and all, carry byte-identical payload files, or a collision is exhibited |
| PackageMeaning.MemberFixed | csa_console/package.py:268-282 | one file table fixes the bytes of each file it lists, or a collision is exhibited |
| PackageMeaning.SameDeclaration | csa_console/package.py:268-282 | equal file tables declare the same entry for a name, the last one winning |
| PackageBuild.CanonicalBytesParse | csa_console/package.py:435-453 | every document written canonically is read back as its sorted self, floats included |
| PackageBuild.BuiltPackageValidates | csa_console/package.py:60-157 | a built package validates if and only if it keeps the size and ratio limits, its fields are complete and the session's, and its sorted evidence and results agree on the collector and pass schema and status rules; the validator then returns equal evidence, results and log under the same digest |
| PackageBuild.TableCovers | csa_console/package.py:83-90 | the built file table lists the payload files and no other, each with the digest and size of its bytes |
| PackageBuild.BuiltAcceptable | csa_console/package.py:60-157 | of the documents read back from a built package, table, binding, digest and signature always hold, so only fields and contents decide |
| BuildRules.BuildExact | csa_console/package.py:60-157 | a package is built exactly when the scanner finds nothing in evidence, results and log, the fields name assessment, session and submission, and no lone surrogate is in token, nonce, contents or what stays of the fields |
| BuildRules.BuiltReads | csa_console/package.py:60-157 | its six members in the order of their names, each the canonical text of its document in UTF-8, and every field of the three metadata documents: binding, table, hashes, key ID and the MAC over the four signed fields |
| PackageVerdicts.StrandsExactly | csa_console/submission.py:155-194 | an upload stays in quarantine exactly when it was staged and the validator raises something other than a package error, or the build it accepted cannot be looked up in a set |
| PackageVerdicts.VerdictExact | csa_console/submission.py:143-187 | the validator is asked with the session's limit, 100 MiB and eight files; each of its states is passed on by name, and an accepted package as its digest, build, profile and device if its build can be looked up and is text |
| PackageVerdicts.DamagedUploadStays | csa_console/submission.py:143-187 | a run that leaves a file: session, nonce, and an upload with a damaged member |
| AuditChain.FinalHashCommits | csa_console/audit.py:59-93 | two chains that verify to one final hash hold equal entries in equal number, or a collision is exhibited |
| AuditChain.PrefixVerifies | csa_console/audit.py:59-93 | every prefix of a verified chain verifies |
| AuditChain.SplitConcat | csa_console/audit.py:65-69 | a text closed by a newline splits on its own, whatever follows, by str.splitlines and by the lines of a file |
| AuditEntry.WrittenVerifies | csa_console/audit.py:43-54 | the line written for an entry, raw or escaped, continues the chain when read on its own and records its event |
| ConsoleAudit.ConsoleAuditLog.Append | csa_console/audit.py:36-57 | the log grows by one canonical line, or stays as it was and the reason is given |
| ConsoleAudit.ConsoleAuditLog.Verify | csa_console/audit.py:59-93 | the loop finds the first broken line, or the final hash and the count |
| ConsoleAudit.AppendVerifies | csa_console/audit.py:36-93 | appending to a verified log keeps it verified, with the returned hash and one more entry, if and only if no string of the event holds U+0085, U+2028 or U+2029 |
| ConsoleAudit.RunVerifies | csa_console/audit.py:36-93 | every log built by appends verifies, with one entry an event, if and only if no event mentions one of the three |
| ConsoleAudit.ReferenceEndsVerification | csa_console/sessions.py:72-75 | one event that ends verification: an assessment whose customer reference holds U+2028 |
| ConsoleAudit.BrokenStaysBroken | csa_console/audit.py:59-93 | a log that does not verify never verifies again, whatever is appended |
| ConsoleAudit.FinalHashOfVerified | csa_console/audit.py:95-104 | the unverified final hash of a verified log is the one its verification ends with |
| ConsoleAudit.WrittenLine | csa_console/audit.py:52-54 | a written line splits as itself, or into a first piece that does not load |
| ConsoleAudit.VerifyArchivedAudit | csa_console/archive.py:221-237 | the archive loop accepts exactly the chains that end in the recorded hash |
| ConsoleAudit.ArchiveCommits | csa_console/archive.py:221-237 | two archived logs accepted against one recorded hash hold the same entries, or a collision is exhibited |
| ConsoleAudit.TruncationShows | csa_console/archive.py:236-237 | dropping lines from the end verifies with another final hash, or a collision is exhibited |
| ActiveAudit.VerifyAuditLog | active_validation/audit.py:51-84 | loading all lines, then checking links, then start and terminal event, in that order of errors |
| ActiveAudit.AuditLog.Append | active_validation/audit.py:29-48 | the log grows by one escaped line chained to the last line that is not blank, or stays as it was and the reason is given |
| ActiveAudit.AuditLog.ReadLastHash | active_validation/audit.py:98-110 | the loop finds the hash of the last line that is not blank |
| ActiveAudit.AppendExtends | active_validation/audit.py:29-48 | every append that returns adds one line, extends the chain to the returned hash and records its event, whatever characters it holds |
| ActiveAudit.AppendVerifies | active_validation/audit.py:51-84 | after such an append the log verifies if and only if it opens with the authorization and the new event is the terminal one |
| ActiveAudit.RunVerifies | active_validation/audit.py:29-84 | every log built by appends verifies, with one entry an event, if and only if its first event is the authorization and its last the completed run |
| ActiveAudit.PrefixNeedsTerminal | active_validation/audit.py:80-84 | a non-empty prefix of a verified run verifies exactly when it ends in the terminal event too |
| ActiveAudit.RunCommits | active_validation/audit.py:51-84 | two runs with one final hash hold the same entries, or a collision is exhibited |
| AuditRules.LinesExact | csa_console/audit.py:59-75 | the lines of a text are exactly the ones it is put together from, with the separators of str.splitlines or of a file |
| AuditRules.ChainExact | csa_console/audit.py:59-93 | lines verify exactly when each is a dict naming the hash of the one before, whose own hash is that of its canonical bytes without it |
| AuditRules.LineRefused | csa_console/audit.py:71-93 | what is wrong with a line that breaks the chain: not JSON, no dict, another hash before it, text that cannot be encoded, or not its own hash |
| AuditRules.ConsoleExact | csa_console/audit.py:59-93 | the console log verifies exactly when it is there and its lines, one at least, are such a chain |
| AuditRules.ArchivedExact | csa_console/archive.py:221-237 | the archive's copy is accepted exactly when it is such a chain ending in the recorded hash |
| AuditRules.ActiveExact | active_validation/audit.py:51-84 | the active log verifies exactly when its lines, one at least, are such a chain from the loaded authorization to the completed run |
| AuditRules.ConsoleAppendExact | csa_console/audit.py:36-57 | an append writes exactly the six-field entry linked to the last line, and is refused exactly for a forbidden key, a last line that is no dict, or what cannot be encoded |
| AuditRules.ActiveAppendExact | active_validation/audit.py:27-48 | the same of the active log, in ASCII, with the scan for sensitive details between |
| ValidatorRegistry.ClosureLeast | active_validation/planner.py:183-223 | the reached set is closed under required dependencies, holds the start and lies in every closed set that does |
| DependencyClosure.ResolveDependencies | active_validation/planner.py:183-223 | returns the sorted least closed set that holds the selection and, with the deep validator, the aggregate; fails exactly when a reached validator has an unknown optional or an unknown, inactive or risk-escalating required dependency, and names a real one; terminates whatever order the set is listed in |
| DependencyClosure.CheckRequired | active_validation/planner.py:205-222 | one validator: resolves and queues its new dependencies, or names the fault |
| DependencyOrder.TopologicalOrder | active_validation/planner.py:225-258 | the search on mutable sets computes the specified order or error |
| DependencyOrder.TopologicalSearch.Visit | active_validation/planner.py:233-254 | one recursive visit changes the three collections as specified |
| DependencyOrder.OrderCorrect | active_validation/planner.py:225-258 | for every registry and selection: success exactly when all are registered and acyclic, then the selection once each, dependencies first; among registered validators the cycle error exactly when there is a cycle |
| DependencyOrder.OrderIsSort | active_validation/planner.py:256-266 | when every dependency has the smaller execution key the order is a plain sort by that key |
| DependencyOrder.OrderOfSet | active_validation/planner.py:225-258 | the order depends on the set selected only |
| OrderRules.OrderExactly | active_validation/planner.py:225-266 | each validator has one path from the top that takes the least step, by execution order and then ID, towards it each time; of two validators the one that comes first is the one whose path is smaller where they part, or goes on |
| OrderRules.OrderGuides | active_validation/planner.py:225-266 | every ordered validator has such a path |
| DependencyOrder.ExploreJustified | active_validation/planner.py:233-241 | a failing visit is justified by a cycle or an unregistered selected validator |
| Planner.ResolveSelection | active_validation/planner.py:135-181 | explicit IDs or profile members, refused in order, without repeats, sorted |
| Planner.Plan | active_validation/planner.py:46-133 | the whole pipeline computes the specified plans or the specified error |
| PlannerRules.SelectionExact | active_validation/planner.py:135-181 | the selection succeeds exactly when something is chosen, nothing twice, and the profile, its risks written out, admits all of it |
| PlannerRules.GateRefused | active_validation/planner.py:80-111 | the first check that a planned validator fails decides the error, each check in fields of definition, policy, authorization and setting |
| PlannerRules.PlanExact | active_validation/planner.py:46-133 | planning succeeds if and only if the choice is admitted, every validator involved has sound dependencies, no circle, scope and every gate open, and their number and the sum of their timeouts fit the policy |
| PlannerRules.EarlyErrors | active_validation/planner.py:46-77 | the errors before the gates, each from the fields that bring it about |
| PlannerRules.PlansExact | active_validation/planner.py:46-133 | the plans are exactly those of the validators involved, what one requires before it, numbered from one, each field that of its registry entry, each timeout the least of its three bounds |
| PlannerRules.PlannedInOrder | active_validation/planner.py:77-133 | the same of plans: for all two validators involved, which is planned first |
| PlannerRules.PlannedByKey | active_validation/planner.py:256-266 | so plans ascend by execution order and then ID when every dependency does |
| Planner.PlanningIsRunIndependent | active_validation/planner.py:46-133 | permuting the requested IDs and changing the run changes run ID and prefix only |
| Planner.PlanGuarantees | active_validation/planner.py:78-133 | every plan passed every gate, limits and scope hold, and the plans are the closure of the selection, numbered, dependencies first |
| Planner.ProfileBoundsRisk | active_validation/planner.py:142-172 | everything planned under a profile has one of its risks, the aggregate that is never compared with it included |
| PlanDigest.DigestIsRunIndependent | active_validation/planner.py:269-289 | the confirmed digest is the same for another run and another listing |
| PlanDigest.DigestCommits | active_validation/planner.py:269-289 | one digest stands for one list of plans and one transport configuration, or a collision is exhibited |
| PlanDigest.DigestReads | active_validation/planner.py:269-289 | the digest is that of the canonical text of a dict of the transport and, for each plan, seven named fields; there is none exactly when that holds a lone surrogate |
| GrantStore.TrustedGrantStore.Finish | csa_console/trusted_grants.py:94-125 | READY, or the failure is marked before it is raised |
| GrantStore.TrustedGrantStore.ReconcileAll | csa_console/trusted_grants.py:141-149 | interrupted issues and unused grants with missing publications fail, in any row order |
| GrantStore.TrustedGrantStore.AddChallenge | csa_console/trusted_grants.py:203-207 | sweeps and inserts, or rolls both back |
| GrantStore.TrustedGrantStore.AuthorizeEndpoint | csa_console/trusted_grants.py:212-230 | answers the challenge, marks the grant and opens the ticket, or rolls all back |
| GrantStore.TrustedGrantStore.Mint | csa_console/trusted_grants.py:236-251 | draws on the ticket and inserts the download, or rolls both back |
| GrantRules.IssueExact | csa_console/trusted_grants.py:78-92 | issuance starts exactly for an unexpired envelope of this session with URL-safe identifiers under an ID and a proof of its own; the row it leaves, field by field |
| GrantRules.ActivateExact | csa_console/trusted_grants.py:94-122 | a PREPARING unused row becomes READY exactly when its provenance binds and names the build, network use comes with provenance, second schema and bundle, and session and audit were written; the row field by field |
| GrantRules.FailExact | csa_console/trusted_grants.py:127-134 | recording a failure marks the row while it is PREPARING and unused and changes nothing else |
| GrantRules.ReconcileExact | csa_console/trusted_grants.py:141-149 | exactly the unused rows fail that are PREPARING, or READY with an unpublished bundle |
| GrantRules.ConsumptionExact | csa_console/trusted_grants.py:159-173 | after every run a grant is consumed exactly by the nonce it was issued with, under its own ID or none, while READY, unexpired, unused and, for the network, authorized |
| GrantRules.ReadExact | csa_console/trusted_grants.py:197-202 | a challenge is opened exactly for a READY, unexpired network envelope neither authorized nor used, for ninety seconds or as long as the grant |
| GrantRules.InsertExact | csa_console/trusted_grants.py:203-207 | it is inserted exactly when fewer than 32 live challenges of the envelope are left; used and expired ones are deleted and no other |
| GrantRules.AuthorizeExact | csa_console/trusted_grants.py:212-230 | authorized exactly with the recipient and secret of the envelope and an unanswered challenge of it, once; ticket for three downloads and two minutes or as long as the grant |
| GrantRules.MintExact | csa_console/trusted_grants.py:236-251 | minted exactly with an unexpired ticket of the envelope that has a use left; afterwards a row other than the new one is there, unchanged, exactly when it was there with an expiry after the sweep's reading |
| GrantRules.RedeemExact | csa_console/trusted_grants.py:253-264 | redeemed exactly by its token for its envelope, once, unexpired, while the grant is live and authorized |
| GrantRules.RedemptionExact | csa_console/trusted_grants.py:236-264 | after every run a redemption is taken if and only if its token was minted for the envelope, neither minted again nor redeemed since, expires after the reading of every sweep since and after its own, and the grant is READY, for the network, authorized, unused and unexpired |
| GrantRules.LaterMintSpares | csa_console/trusted_grants.py:247-250 | a minted token survives a later mint whose clock has not reached its expiry |
| GrantRules.ConsumptionRefused | csa_console/trusted_grants.py:160-170 | a used row is a replay, an unauthorized network row an authorization error, anything else a session error |
| GrantRules.ActivationRefused | csa_console/trusted_grants.py:94-125 | which of the five errors a refused activation raises |
| GrantRules.IssuanceRefused | csa_console/trusted_grants.py:78-92 | what is not on offer is a session error, a repeated ID or proof a replay |
| GrantRules.ReadingRefused | csa_console/trusted_grants.py:184-200 | an envelope authorized, used or not for the network is told apart from one not there, not READY or expired |
| GrantRules.InsertionRefused | csa_console/trusted_grants.py:203-207 | which error a refused challenge raises: storage missing, 32 live ones, or a repeated identifier |
| GrantRules.AuthorizationRefused | csa_console/trusted_grants.py:212-230 | which of the four errors a refused authorization raises |
| GrantRules.MintRefused | csa_console/trusted_grants.py:236-251 | which of the three errors a refused mint raises |
| GrantRules.RedeemRefused | csa_console/trusted_grants.py:253-264 | which error a refused redemption raises |
| GrantRuns.RunEvolves | csa_console/trusted_grants.py:94-182 | over every run FAILED and used are absorbing, identity, nonce, recipient, expiry and profile never change, build and provenance not once READY |
| GrantRuns.RunSound | csa_console/trusted_grants.py:47-67 | after every run nonces are unique, used implies READY, an envelope has at most one ticket, and download, ticket, challenge and grant expiries nest |
| GrantRuns.DownloadsConserved | csa_console/trusted_grants.py:227-251 | remaining uses plus downloads ever minted make three for every envelope, and nothing is minted before authorization |
| GrantRuns.RedeemedAtMostMinted | csa_console/trusted_grants.py:249-264 | redemptions of a token never outnumber its mints, although expired rows are deleted and clocks may run backwards |
| GrantRuns.RedemptionTraced | csa_console/trusted_grants.py:249-264 | every redemption goes back to a mint for the same envelope under the same token, which was neither minted again nor redeemed in between |
| GrantRuns.DownloadedAtMostMinted | csa_console/trusted_grants.py:236-264 | an envelope is downloaded at most as often as it was minted for, so at most three times, however tokens are drawn |
| GrantRuns.AuthorizedOnce | csa_console/trusted_grants.py:212-230 | an envelope is authorized at most once, and its mark says whether it was |
| GrantRuns.MintTraced | csa_console/trusted_grants.py:212-251 | every mint goes back to the one authorization of its envelope, which met the grant READY and unexpired, its recipient and secret and an unanswered challenge |
| GrantRuns.UsedClosesDownloads | csa_console/trusted_grants.py:241-262 | once used or failed, nothing is minted or redeemed for the envelope |
| GrantRuns.ConsumedOnce | csa_console/trusted_grants.py:159-173 | a consumption takes an unused grant that names the submission for ever after |
| GrantRuns.NonceConsumedOnce | csa_console/trusted_grants.py:159-173 | no two consumptions of a run used one nonce |
| SubmissionConsole.SubmissionService.AcceptUpload | csa_console/submission.py:91-262 | the whole upload, quarantine included, does what is specified |
| SubmissionConsole.SubmissionService.Import | csa_console/offline.py:290-398 | the whole import does what is specified; the grant stays consumed when a duplicate is refused |
| SubmissionRules.TokenDecides | csa_console/sessions.py:214-258 | an upload to an open, unexpired session from a source in scope is turned away for its token exactly when the token's digest or the part before its first dot is not the enrolled one, it has expired, or its uses have reached either limit |
| SubmissionRules.TokensEarned | csa_console/sessions.py:214-258 | every nonce issued and every acceptance, over HTTPS or offline, had a token with the enrolled digest and ID, before its expiry and below both limits |
| SubmissionRules.UploadExact | csa_console/submission.py:91-262 | an upload is accepted exactly when it passes all its checks, each written out in fields |
| SubmissionRules.UploadRefused | csa_console/submission.py:91-262 | the first check an upload fails decides its answer, the nonce it spends and the file it leaves |
| SubmissionRules.UploadAccepted | csa_console/submission.py:189-262 | an accepted upload is filed and indexed in order, its nonce spent, its token used once more, and nothing else happens |
| SubmissionRules.RequestRefused | csa_console/submission.py:54-89 | the first check a nonce request fails decides the answer, and nothing changes |
| SubmissionRules.RequestGranted | csa_console/submission.py:54-89 | a request that passes all of them gets a nonce for two minutes bound to session, submission and source, and costs the one grant it names where envelopes are needed |
| SubmissionRules.ImportRefused | csa_console/offline.py:290-398 | an import that fails one of its checks raises and changes nothing |
| SubmissionRules.ImportSettled | csa_console/offline.py:290-398 | an import that passes them consumes its grant, and is filed exactly if the grant fits the evidence and neither submission nor digest is indexed |
| SubmissionRules.RunIndexed | csa_console/trusted_grants.py:78-92 | in every run the grant tables that the answers read are indexed by nonce |
| SubmissionRules.OperatorsExact | csa_console/sessions.py:188-295 | a session is opened once, its status changes along five ways only, a trusted build is remembered |
| SubmissionRules.RemoveExact | csa_console/submission.py:352-391 | a submission is removed exactly when it is listed: its items and its accepted file go and nothing else |
| SubmissionRules.ProcessExact | csa_console/submission.py:313-346 | a mark is taken exactly for one of the six states on a listed submission, and changes the state of its first item only |
| SubmissionConsole.SubmissionService.Remove | csa_console/submission.py:352-391 | index and accepted file lose the submission, or nothing changes |
| SubmissionConsole.SubmissionService.Process | csa_console/submission.py:313-346 | the first item of the submission gets an allowed state, or nothing changes |
| SubmissionRuns.TokenBudget | csa_console/sessions.py:240-270 | after every run each session has as many token uses as acceptances ever, within the smaller of its two limits |
| SubmissionRuns.IndexSound | csa_console/submission.py:215-262 | after every run the index is sorted, without a repeated submission ID or package digest, and accepted files are exactly those it lists |
| SubmissionRuns.WithoutMembers | csa_console/submission.py:364-370 | removal takes away the items of that submission and no other |
| SubmissionRuns.MarkExact | csa_console/submission.py:335-343 | a processing mark changes the state of the one item of that submission |
| SubmissionSafety.NonceUsedOnce | csa_console/nonces.py:52-86 | nonces used for a submission never outnumber those issued for it |
| SubmissionSafety.AcceptanceTraced | csa_console/nonces.py:28-86 | every HTTPS acceptance of a run goes back to an earlier request for the same session, submission and source that issued this very nonce less than two minutes before, with no issue or use for the submission in between |
| SubmissionSafety.StepFrame | csa_console/submission.py:131-161 | only requests issue nonces and only uploads use them or touch the quarantine, which a staged upload clears under its name unless it strands |
| SubmissionSafety.QuarantineExact | csa_console/submission.py:143-187 | after every run a file lies in quarantine for a submission if and only if some upload of it was stranded by the validator and no later one was staged, and it is that upload's archive |
| SubmissionSafety.QuarantineEmpty | csa_console/submission.py:155-187 | after a run in which no upload strands the quarantine is empty |
| GrantMatching.ConsumeNames | csa_console/trusted_grants.py:171-172 | consuming adds one to the used grants naming the submission |
| GrantMatching.AdmissionGranted | csa_console/trusted_grants.py:278-291 | at an acceptance that needs a grant exactly one used READY grant names it, with its build and profile |
| GrantMatching.AcceptancesMatchGrants | csa_console/trusted_grants.py:278-291 | after every run each such acceptance still has its grant and no two rely on one, removals and repeated IDs included |
| GrantMatching.GrantsAreNotShared | csa_console/trusted_grants.py:278-291 | the match written as an injection |
| LabService.CsaLabService.OpenPortal | csa_lab/service.py:481-573 | the effects of the try block and its handler |
| LabService.CsaLabService.DetectRecoveryItems | csa_lab/service.py:1302-1332 | what restart finds and flags |
| LabLifecycle.RunSound | csa_lab/service.py:465-632 | after every run of operations, stop requests and crashes between any two effects a server is live exactly when COLLECTING and no stop has been served since collection began |
| LabLifecycle.RunKept | csa_lab/service.py:465-632 | after every such run COLLECTING implies session OPEN, rule, portal and registration, a live server implies COLLECTING, and leftover access is flagged |
| LabLifecycle.ServedStop | csa_console/server.py:139-180 | a served stop request leaves a COLLECTING status without a server; a start then does nothing, a pause, stop, cleanup or crash makes the state sound again |
| LabLifecycle.PausedBehind | csa_lab/service.py:575-589 | after the session was paused from the command line a pause stops the runtime, is refused, and leaves COLLECTING behind |
| LabLifecycle.CompleteSound | csa_lab/service.py:465-632 | every operation keeps the invariant with its live server, whether it returns or is refused |
| LabLifecycle.CrashSound | csa_lab/service.py:1302-1332 | so does death after any of its effects, once restart has looked |
| LabLifecycle.RestartFlags | csa_lab/service.py:1302-1332 | from any state restart leaves nothing COLLECTING and flags exactly what it finds, collection under way, a rule, a stop marker; when it finds nothing the status stays |
| LabLifecycle.CleanupApplied | csa_lab/service.py:1334-1361 | from any state cleanup succeeds exactly when the session is not DRAFT or ARCHIVED, leaving no rule, portal, marker or registration and a CLOSED session |
| LabLifecycle.CleanupFinishes | csa_lab/service.py:1334-1361 | after a cleanup nothing ever collects again, whatever follows |
| LabLifecycle.NeverAgain | csa_console/sessions.py:197-202 | with a CLOSED or ARCHIVED session there is never again a server, a rule, an active portal or COLLECTING |
| LabLifecycle.StartApplied | csa_lab/service.py:465-573 | a start succeeds exactly when running already or the session is open or paused, and what it comes to |
| LabLifecycle.PauseApplied | csa_lab/service.py:575-589 | a pause succeeds exactly when the session is open; the runtime is stopped either way |
| LabLifecycle.ResumeApplied | csa_lab/service.py:591-606 | a resume succeeds exactly from PAUSED or RECOVERY_REQUIRED with a paused session, so not after a crash that left the session open |
| LabLifecycle.StopApplied | csa_lab/service.py:608-632 | a stop succeeds exactly when the session can be closed or is |
| LabLifecycle.StopRuntimeApplied | csa_lab/service.py:1383-1405 | afterwards no rule, no active portal, no registration |
| LabLifecycle.ReportingApplied | csa_lab/service.py:796-1196 | when shutdown, import, analysis and report succeed and the status they leave: an import after the end asks for a new report, an analysis withdraws one |
| LabLifecycle.StartFault | csa_lab/service.py:531-565 | a start that raises keeps the invariant exactly when it raises before the server is registered or after the state is written |
| LabLifecycle.StaleEntry | csa_lab/service.py:469-470 | the stale entry makes the next start return at once; a pause removes it |
| PortalThrottle.PortalBinding.RecordFailedAuthorization | csa_console/portal.py:125-142 | the window filter and the block, as specified |
| PortalThrottle.History | csa_console/portal.py:130-142 | what the portal remembers of a source is what is left of its complete history |
| PortalThrottle.FailuresApart | csa_console/portal.py:137-142 | in one window each failure after the N-th comes a throttle period after the one before |
| PortalThrottle.GuessBound | csa_console/portal.py:78-142 | failures of one source in any half-open window of length W number at most N-1+ceil(W/T), codes and credentials together |
| PortalThrottle.DefaultGuessBound | csa_console/portal.py:62-64 | six with the defaults |
| PortalThrottle.DefaultThrottle | csa_console/portal.py:62-64 | with the defaults the fifth failure within sixty seconds throttles for thirty |
| PortalThrottle.DownloadsBounded | csa_console/portal.py:154-161 | after every run of calls and downloads the count is the number of downloads counted and never above the maximum, however many were admitted before it was reached |
| PortalThrottle.SpentForGood | csa_console/portal.py:119-161 | once the maximum is counted no later call of any run is granted |
| PortalThrottle.ThrottleExact | csa_console/portal.py:125-142 | after every run a source is blocked until one throttle period after its last failure that brought the window to the limit, the failures taken from the complete run |
| PortalThrottle.AnswerExact | csa_console/portal.py:78-123 | after every run a call is granted exactly to a source that is not throttled and in scope, with the right code of an open session, as long as downloads are left; which calls count as failures, and at which reading |
| PortalThrottle.DownloadExact | csa_console/portal.py:157-161 | a download that ends is counted while the budget lasts |
| PortalThrottle.CountersExact | csa_console/portal.py:84-142 | after every run the two counters are the failures recorded and the calls throttled |
| Times.WindowIsSlice | csa_console/portal.py:131-136 | the readings of a rising sequence in a half-open window are neighbours |
| RateLimiter.RequestLimiter.AllowRequest | csa_console/server.py:190-201 | popping, testing and appending, as specified |
| RateLimiter.DequeRefinesHistory | csa_console/server.py:181-201 | the deque holds the accepts of the window that ended at an earlier reading |
| RateLimiter.RefusedExactly | csa_console/server.py:190-201 | refused exactly when the complete history already has limit accepts in the window; afterwards the deque is exactly that window |
| RateLimiter.WindowBound | csa_console/server.py:190-201 | no half-open window ever holds more than limit accepts of a source |
| NameWire.ParseNameQuery | active_validation/deep_protocol.py:105-127 | the cursor loop computes the specified labels or error and never leaves the payload |
| NameWire.QueryRoundTrip | active_validation/deep_protocol.py:105-127 | parsing an encoded query gives the upper-cased name and the identifier for all legal names |
| NameWire.LlmnrReparses | active_validation/deep_protocol.py:61-77 | a response answers its marker only, and parses to the query's marker and identifier exactly when the query has at most 496 bytes |
| NameWire.NbtnsRoundTrip | active_validation/deep_protocol.py:130-145 | parsing an encoded NetBIOS query gives the upper-cased name and the identifier for every ASCII name that fits |
| NameWire.NbtnsReparses | active_validation/deep_protocol.py:80-102 | a NetBIOS response of 62 bytes decodes to the very marker and identifier of its query |
| NameRules.QueryExact | active_validation/deep_protocol.py:105-127 | a payload is a query exactly when it has the size, one question and legal labels up to a zero and five bytes more, and the name is the labels between dots in capitals |
| NameRules.LabelRefused | active_validation/deep_protocol.py:105-127 | why a payload is not a query: after labels in order one that is too long, runs over the end, or holds a byte beyond ASCII |
| NameRules.LlmnrExact | active_validation/deep_protocol.py:61-77 | exactly a query for the marker is answered, from a unicast address, with these bytes |
| NameRules.NbtnsExact | active_validation/deep_protocol.py:130-145 | exactly which payloads are NetBIOS queries, and for which name |
| NameRules.NbtnsAnswerExact | active_validation/deep_protocol.py:80-102 | exactly a query for the marker is answered, with these 62 bytes |
| NtlmWire.FindFromIs | active_validation/deep_protocol.py:153-155 | the search finds the first signature, or there is none |
| NtlmWire.BufferInside | active_validation/deep_protocol.py:222-234 | a buffer read succeeds exactly when descriptor and value lie inside the payload, counted from the base, and returns those bytes |
| NtlmWire.IdentityShifted | active_validation/deep_protocol.py:195-205 | bytes before the message that bring no signature change no field |
| NtlmWire.IdentityInside | active_validation/deep_protocol.py:200-205 | each field returned lies inside the message |
| NtlmWire.ChallengeReadsBack | active_validation/deep_protocol.py:163-192 | every challenge has 72 bytes, parses as CHALLENGE, carries its nonce at 24, and its target information read at 40 is what was appended |
| NtlmRules.TypeExact | active_validation/deep_protocol.py:148-160 | the type is read exactly from 12 bytes to 64 KiB with a number from one to three after the first mark |
| NtlmRules.IdentityExact | active_validation/deep_protocol.py:195-234 | an identity is read exactly from an authenticate message with 64 bytes after its mark: domain and user are what the descriptors 28 and 36 bytes on describe |
| NtlmRules.ChallengeExact | active_validation/deep_protocol.py:163-192 | the 72 bytes of the challenge, field by field |
| NtlmRules.TimeBytes | active_validation/deep_protocol.py:163-192 | the time in it is eight bytes, the lowest first |
| LatestSubmissions.LoadLatest | csa_console/fleet.py:219-235 | the loop computes the running maximum per device |
| LatestSubmissions.FleetIsOrderFree | csa_console/fleet.py:219-235 | the running maximum does not depend on the order of the analyses and equals sorting and overwriting |
| LatestSubmissions.PairKeyLess | csa_console/fleet.py:223-233 | the sort key orders pairs of strings as tuples |
| LatestSubmissions.Dashboard | csa_lab/service.py:667-794 | complete rows, pending rows and the last one per device |
| LatestSubmissions.AnalysedNeverPending | csa_lab/service.py:667-794 | where index and analyses agree on devices, no analysed submission is shown as merely received, superseded ones included |
| LatestSubmissions.PendingExactly | csa_lab/service.py:667-794 | an analysed submission shows as merely received if and only if the index has it under another device, a later analysis of its own device supersedes it, and no analysis of that other device and no item of it that is not on show is later |
| LatestSubmissions.ItemPending | csa_lab/service.py:749-794 | an index item shows as pending exactly when it has an ID, is not on show as an analysis and is the last of its device |
| LatestSubmissions.DisagreementShowsAnalysed | csa_lab/service.py:749-794 | where they disagree it can be: a concrete index |

## Left out

- Sockets, TLS, HTTP handlers, page rendering, subprocesses, PowerShell, ACLs: only the state they change is kept.
- Cryptographic primitives, ZIP and deflate: parameters, and a map from names to bytes.
- Json.LoadsPrint: nesting beyond the interpreter's recursion limit and integers of more than 4300 digits, on which Python raises, are printed and read here.
- Rounding itself: which float a decimal stands for is a parameter, as the three laws describe it.
- ConsoleAudit.ConsoleAuditLog.Append: the UTF-8 encoding of the file and partial writes are not modelled.
- ActiveAudit.VerifyAuditLog: a line that is not a dict, which raises another exception there, is one more error here; the UTF-8 encoding of the file is not modelled, and the scan for sensitive details is a parameter.
- Package.SafeMembers: of the path tests only the one for links is kept; the others cannot fail once the file set is the required one.
- PackageMeaning.UncaughtExactly: exceptions of the sensitive-data scanner and exhausted memory or recursion are not modelled.
- PackageVerdicts.StrandsExactly: errors of the file system and of the grant database while the file is staged are not modelled.
- Planner.Plan: registry metadata is taken as already reviewed; loading plug-ins and the wording of errors are not modelled.
- GrantRuns.RunSound: one session's database; storage errors and the audit entries written after a transaction are not modelled.
- SubmissionRuns.TokenBudget: whole requests are atomic and session IDs never repeat; finer interleavings of the offline import, whose token use is recorded outside the index lock, are not covered.
- SubmissionConsole.SubmissionService.AcceptUpload: receipts, audit entries and the digest kept with a rejection are not modelled.
- SubmissionConsole.SubmissionService.Import: receipts, decryption and the normalisation of legacy paths are not modelled.
- SubmissionConsole.SubmissionService.Remove: derived evidence, findings and report files are not modelled.
- GrantStore.TrustedGrantStore.Finish: writing the session and appending the audit entry are one flag.
- LabLifecycle.RunKept: one assessment; a crash is the death of the process; exceptions are modelled for starting only; changes of the session from the command line while collecting are not events of a run, only `PausedBehind` speaks of one.
- PortalThrottle.GuessBound: calls are sequential; concurrent calls that pass the block test together are not covered.
- NameWire.ParseNameQuery: `upper` and `rstrip` on ASCII; the text of an address is given parsed.
- NtlmWire.IdentityInside: decoding, folding and hashing the identity text.
- LatestSubmissions.Dashboard: the columns copied into a row; identifiers are already strings.
- Receipts, scoring, coverage, compliance evaluation, report generation, CVE and rules engines, deletion and export of assessments.
