# tydence, modelled and proved in Dafny

tydence stamps a git commit: it writes a manifest of the commit's whole
content, has time-stamping authorities sign the manifest, seals manifest and
tokens into the commit's own tree, and lets anyone audit the claim later. Each
stamp also binds the stamps before it, so that a chain of them outlives its
certificates.

This project models the algorithms behind that, apart from git, CMS and HTTP,
and proves what they promise. `dafny verify dfyconfig.toml` checks all of it.
Nothing was executed.

## How it is laid out

- **Canonical manifest text.** `Bytes`, `Utf8`, `Hex`, `Sorting`, `PathCodec`
  and `UnicodeTable` are the foundations, `Utf8Encoding` and `PathSpelling` say
  what they mean; `ManifestModel`, `ManifestText`, `ManifestLines`,
  `ManifestGrammar`, `ManifestReader` and `ManifestRoundTrip` are the printer,
  the reader and the theorems that relate them, `ManifestLayout` and
  `ManifestFaults` the written text and the refusals.
- **Binding.** `BindingOrder` and `BindingRelation` are the canonical group
  order; `Binding` the linkage and order checks; `Claims` the walk to the
  nearest claims and the reading of one claim; `Bind` the binding set of a new
  stamp; `LinkageMeaning`, `ClaimMeaning` and `BindMeaning` tell their answers.
- **Snapshots.** `Repository`, `Snapshot`, `SnapshotPaths`, `SnapshotMembers`,
  `SnapshotMeaning`.
- **Policy and acquisition.** `Config`, `ConfigBlocks`, `ConfigMeaning`,
  `ConfigFaults`, `Acquire`, `AcquireMeaning`.
- **Stamp, seal, verify.** `Create`, `Seal`, `SealedSnapshot`, `TreeAgreement`,
  `StampVerdict`, `Audit`, `AuditMeaning`, and `FreshStamp` with `StampAndAudit`, which join
  them all; `SampleStamp` is one stamp made of concrete values.
- **Trust.** `X509`, `Revocation`, `RevocationMeaning`, `CertificatePath`.
- **The checkout and the message.** `Staging`, `Trailers`, `TrailerMeaning`.

Each loop of the source is proved equal to a function beside it. The theorems
about such a function state what its answers are without it: the modules named
for a meaning or a fault spell out paths, bits, digits and positions, so that a
function that did something else would not fit them.

Bytes are `char`s below 256. A Rust `str` is the byte string of its UTF-8
encoding, except in `Trailers`, where a message is a sequence of characters
because trimming is defined on those. A git tree is the list of its records at
full path, or a finite map from path to record where it is edited. Hashes,
signatures, token verification, gitlink resolution and the authorities
themselves are function parameters, the same wherever they occur; what a
theorem needs of them is in its `requires`. Each imperative method is proved
equal to a function, or satisfies a relation, about which the lemmas speak.

The source's own style is kept: the manifest and configuration builders, the
tree editor and the checkout are classes whose methods update their fields,
the group slots and the hexadecimal decoder work in place on arrays, and the
worklists, scans and bounded walks are loops.

## Where the code differs from what one might read

- Section 4.1 of the stamping specification makes the order of binding groups
  canonical, but neither the reader nor the verdict checks it: `Canonical`
  leaves the groups as they stand, and the order check stands beside the
  verdict (`OrderCheckExact`, `AcceptsExactlySerializations`).
- Section 4.2 excludes the manifest and everything below the token directory
  from the snapshot. A content file standing exactly at `.tydence/tokens`, or
  below `.tydence/manifest/`, is not excluded, yet sealing removes it; a stamp
  of such content fails its own check 2. `FreshStampVerdict` states exactly
  when, and `DisplacesByRecords` reads it off the content's records.
  `StrayFileFailsItsStamp` gives the input: a content tree holding a policy
  and a file at `.tydence/tokens`, the stamp created of it, and the audit that
  rejects that stamp; of the same content without that file, the stamp stands
  exactly when its token verifies.
- With equal sha256 values the group order may depend on the order the groups
  are given in: two different groups of one sha256 value that no edge relates
  stay as listed (`RepeatedPayloadsDepend`). Distinct values are a hypothesis
  where it matters.
- The empty path encodes to the empty text, which the decoder refuses
  (`PathRoundTrip`); no entry has one.
- Replacing stamp trailers leaves nothing of the first stamp except where a
  carriage return precedes a line break in the message's body, because a
  second reading strips it (`TrailersAreAbsorbed`). The message
  `"a\r\r\nb"` is one (`DoubledReturnIsNotAbsorbed`).

## Model

| member | source | states |
|---|---|---|
| Hex.DecodeExact | crates/tydence/src/hex.rs:16-47 | decoding accepts exactly the encodings of payloads of the wanted length, in the given alphabet's case |
| Hex.DecodeInto | crates/tydence/src/hex.rs:30-47 | the slot-by-slot array loop computes that decoding |
| Hex.EncodedExact | crates/tydence/src/hex.rs:16-28 | a text is the encoding exactly when its digits have the bytes' values, high digit first, in the alphabet's case |
| Utf8Encoding.ScalarExact | crates/tydence/src/manifest/path.rs:51-76 | a character is found at the front of a text exactly when its RFC 3629 encoding stands there |
| Utf8Encoding.TruncatedExact | crates/tydence/src/manifest/path.rs:51-76 | a text ends mid-sequence exactly when more bytes could make it a character |
| Utf8Encoding.BrokenExact | crates/tydence/src/manifest/path.rs:51-76 | a broken sequence takes the longest part that could have begun a character, and at least one byte |
| Utf8Encoding.ValidExact | crates/tydence/src/manifest/path.rs:51-76 | a text is valid exactly when it is the encoding of characters, and those are the ones it spells |
| UnicodeTable.VerifyPartition | crates/tydence-ucd/src/parse.rs:58-68 | accepts exactly the range lists that tile the code space without gap or overlap |
| UnicodeTable.TilesExactlyOnce | crates/tydence-ucd/src/parse.rs:58-68 | in an accepted source every code point lies in exactly one range |
| UnicodeTable.ReadSource | crates/tydence-ucd/src/parse.rs:74-91 | sorts the lines by first code point and yields them exactly when they tile |
| UnicodeTable.Select | crates/tydence-ucd/src/select.rs:15-37 | the merged table is strictly separated and covers exactly the code points whose category matches |
| UnicodeTable.IsInTable | crates/tydence/src/manifest/path.rs:14-22 | the binary search decides membership for every code point |
| UnicodeTable.Classify | crates/tydence-ucd/src/select.rs:15-37 | source, selection and search together: the answer is the category test of the one range holding the code point |
| PathCodec.EncodePathLoop | crates/tydence/src/manifest/path.rs:51-76 | the shrinking-slice loop computes the encoding, broken and truncated UTF-8 included |
| PathCodec.DecodePathLoop | crates/tydence/src/manifest/path.rs:83-103 | the decoding loop, its refusals included |
| PathCodec.PathRoundTrip | crates/tydence/src/manifest/path.rs:51-103 | every non-empty byte string, valid UTF-8 or not, decodes from its encoding; the empty one does not |
| PathCodec.EncodeInjective | crates/tydence/src/manifest/path.rs:51-76 | no two paths share an encoding |
| PathCodec.EncodingIsPrintable | crates/tydence/src/manifest/path.rs:24-43 | an encoding is valid UTF-8 whose characters are neither control nor separator, with `%` only opening an escape |
| PathCodec.EncodingAboveSpace | crates/tydence/src/manifest/path.rs:24-43 | every byte of an encoding sorts above the space |
| PathSpelling.EncodePathStep | crates/tydence/src/manifest/path.rs:24-76 | piece by piece: a character other than `%` that no table range holds stays as it is, every other character and every broken sequence becomes one escape for each byte |
| PathSpelling.UnchangedExact | crates/tydence/src/manifest/path.rs:30-43 | a path is its own encoding exactly when it is valid UTF-8 without `%` and without a selected character |
| PathSpelling.VisibleStays | crates/tydence/src/manifest/path.rs:30-43 | visible ASCII without `%`, slashes included, passes through |
| PathSpelling.DecodePathExact | crates/tydence/src/manifest/path.rs:83-103 | a field decodes exactly when it is not empty and each `%` opens an escape of two uppercase digits, to the bytes these spell |
| ManifestModel.SpecExact | crates/tydence/src/manifest/model.rs:151-187 | the open label set: which text reads as which specification, the known label never as an unrecognized one |
| ManifestModel.ModeExact | crates/tydence/src/manifest/model.rs:100-137 | each mode has exactly one spelling |
| ManifestModel.HashesExact | crates/tydence/src/manifest/model.rs:37-97 | the double hash reads back from exactly its two written fields, in their order |
| ManifestModel.SizeExact | crates/tydence/src/manifest/parse.rs:69-83 | a size reads back from exactly its canonical decimal, within 64 bits |
| ManifestText.Serialize | crates/tydence/src/manifest/model.rs:311-334 | the appending method writes exactly the specified text or names the offending field |
| ManifestText.PushGroupLines | crates/tydence/src/manifest/model.rs:264-292 | one group's lines, tokens in canonical order |
| ManifestText.SerializesWhenSpellable | crates/tydence/src/manifest/model.rs:232-244 | serialization fails exactly when a parent, commit, label or site is not a bare token |
| ManifestLayout.SerializedExact | crates/tydence/src/manifest/model.rs:246-334 | the text spelled out: header, parents, each group's lines with tokens ascending by label and then site, entry lines ascending byte by byte |
| ManifestLines.SerializedSplits | crates/tydence/src/manifest/model.rs:311-334 | a serialization is valid UTF-8 and splits back into exactly its header and record lines |
| ManifestLines.LineOrderIsPathOrder | crates/tydence/src/manifest/model.rs:325-331 | byte order of whole entry lines implies byte order of encoded paths |
| ManifestLines.PathOrderIsLineOrder | crates/tydence/src/manifest/model.rs:325-331 | for distinct paths the two orders coincide |
| ManifestGrammar.TransitionsAreTheTable | crates/tydence/src/manifest/parse.rs:127-164 | the section automaton takes exactly the arrows of the table |
| ManifestGrammar.AcceptsExactlyTheGrammar | crates/tydence/src/manifest/parse.rs:114-164 | the accepted record sequences are exactly `parents? (predecessor? past-manifest past-token*)* entry*` |
| ManifestReader.Builder.Read | crates/tydence/src/manifest/parse.rs:278-375 | one record updates the builder as specified; an announced predecessor is pending exactly in its section and a token always has a group |
| ManifestReader.Builder.AddPastToken | crates/tydence/src/manifest/parse.rs:233-257 | a token joins the last group, which the section guarantees, unless it is another group's or repeats a site |
| ManifestReader.Builder.AddEntry | crates/tydence/src/manifest/parse.rs:259-276 | an entry is refused when it repeats the previous entry's path, and otherwise appended |
| ManifestReader.Run | crates/tydence/src/manifest/parse.rs:400-432 | header, lines, builder and the final re-serialization comparison |
| ManifestFaults.ParseFault | crates/tydence/src/manifest/parse.rs:278-432 | a refused text is told its first line at fault and how, an announcement left open, or that it reads but is not canonical |
| ManifestRoundTrip.WellFormedReadsBack | crates/tydence/src/manifest/model.rs:295-334 | every well-formed manifest serializes, and its text parses to that manifest with tokens and entries in canonical order |
| ManifestRoundTrip.RoundTripExact | crates/tydence/src/manifest/parse.rs:400-432 | a serialization reads back exactly when the manifest is well formed |
| ManifestRoundTrip.AcceptsExactlySerializations | crates/tydence/src/manifest/parse.rs:393-432 | the accepted texts are exactly the serializations of well-formed manifests in canonical order |
| ManifestRoundTrip.AdjacentSuffices | crates/tydence/src/manifest/parse.rs:259-276 | entries in line order that never repeat the previous path are globally distinct |
| ManifestRoundTrip.AcceptedIsWellFormed | crates/tydence/src/manifest/parse.rs:424-431 | every accepted manifest is well formed and canonical |
| ManifestRoundTrip.AcceptedFollowsGrammar | crates/tydence/src/manifest/parse.rs:278-391 | the record lines of every accepted text spell a word of the grammar |
| BindingOrder.Run | crates/tydence/src/manifest/order.rs:40-83 | the loop that takes groups out of their slots computes the greedy order, or the first invalid edge, or a cycle |
| BindingOrder.GreedyIsOrdering | crates/tydence/src/manifest/order.rs:57-82 | a finished run lists every group once, each binder before what it binds |
| BindingOrder.GreedyIsLeast | crates/tydence/src/manifest/order.rs:35-83 | with distinct sha256 values its sequence is lexicographically least among all such orders |
| BindingOrder.GreedyTurnExact | crates/tydence/src/manifest/order.rs:57-82 | at every turn the slot taken is bound by none left, and preferred to every other such slot by sha256 bytes, then by place |
| BindingOrder.FirstInvalidExact | crates/tydence/src/manifest/order.rs:43-56 | the edge reported as invalid is the first that is out of range or binds a group to itself |
| BindingRelation.CycleExact | crates/tydence/src/manifest/order.rs:57-82 | with valid edges the cycle error is reported exactly when the relation has a directed cycle |
| BindingRelation.ClosureMakesNoDifference | crates/tydence/src/manifest/order.rs:57-82 | relations with the same transitive closure give the same order, or the same error |
| BindingRelation.TransitiveListingMakesNoDifference | crates/tydence/src/manifest/order.rs:57-82 | listing the direct edges, their transitive closure or anything between gives the same order, or the same error |
| BindingRelation.ListingMakesNoDifference | crates/tydence/src/manifest/order.rs:40-83 | with distinct sha256 values, listing the groups differently and re-indexing the edges changes nothing |
| BindingRelation.RepeatedPayloadsDepend | crates/tydence/src/manifest/order.rs:57-82 | two different groups of equal sha256 that no edge relates keep the order they were given in, so listing them the other way gives another result |
| Binding.VerifyBindingLinkage | crates/tydence/src/verify/binding.rs:156-194 | the nested loops report the first linkage failure |
| Binding.LinkageExact | crates/tydence/src/verify/binding.rs:138-194 | linkage holds exactly when groups and stamps pair up, hashes agree and each claimed token is offered once with its hash |
| LinkageMeaning.LinkageMeans | crates/tydence/src/verify/binding.rs:156-194 | linkage holds exactly when each stamp reproduces its group, every claimed token offered at one position; otherwise the first group and token at fault are named |
| Binding.DeriveBindingEdges | crates/tydence/src/verify/binding.rs:219-242 | the edge-pushing loops compute the derived edges |
| Binding.DerivedEdgesExact | crates/tydence/src/verify/binding.rs:196-242 | an edge is derived exactly when a bound manifest carries another group's manifest, and all edges are valid; otherwise the first bound manifest that does not parse is named |
| Binding.OrderCheckExact | crates/tydence/src/verify/binding.rs:244-263 | with distinct sha256 values the order check accepts exactly the fixpoints of the canonical order |
| LinkageMeaning.OrderCheckMeans | crates/tydence/src/verify/binding.rs:244-263 | the order check reports the ordering's own failure, or the first position whose hashes differ from the canonical order's |
| Binding.GenerationAgrees | crates/tydence/src/verify/binding.rs:219-263 | groups put in canonical order pass the check with edges derived anew from the reordered groups |
| Claims.NearestClaimingCommits | crates/tydence/src/claims.rs:181-203 | on any finite history the walk ends, with exactly the claiming commits reachable without passing a claim, each once, or with a reached unreadable commit |
| Claims.EveryLineMeetsItsNearestClaim | crates/tydence/src/claims.rs:175-203 | a line of history that claims anywhere meets a returned commit, and meets it first |
| ClaimMeaning.ReachedExact | crates/tydence/src/claims.rs:175-203 | a commit is reached exactly by a line of parents through stored commits that hold nothing at the manifest path |
| Claims.ArtifactsExact | crates/tydence/src/claims.rs:89-173 | artifacts are read exactly from trees that claim in good order, with one token for each file and none left out |
| ClaimMeaning.ArtifactsMean | crates/tydence/src/claims.rs:89-173 | artifacts are read exactly when the manifest is a regular file and the token directory holds tokens only; they are the manifest's bytes and the tokens in order |
| ClaimMeaning.ArtifactsFault | crates/tydence/src/claims.rs:89-173 | a refusal names a commit or file not at hand, or the entry out of place |
| Claims.ReadTokenFilesLoop | crates/tydence/src/claims.rs:97-147 | the pushing loop reads every token file or reports the first foreign entry of the token directory |
| Claims.EntryPathExact | crates/tydence/src/claims.rs:119-122 | a foreign entry is reported by its own path directly in the token directory, a directory as a whole |
| Claims.SitesAreDistinct | crates/tydence/src/claims.rs:97-147 | a tree offers every site at most once |
| Bind.DeduplicateStamps | crates/tydence/src/stamp/bind.rs:110-130 | the loop that overwrites kept stamps in place computes the collapse |
| Bind.DeduplicateCollapses | crates/tydence/src/stamp/bind.rs:98-130 | one stamp is kept for each manifest, the one of smallest commit annotation |
| Bind.Run | crates/tydence/src/stamp/bind.rs:132-157 | the groups come from nearest claims, bind every nearest claim's manifest once, under its least annotation, and pass the order check when their stamps are located anew; binding fails exactly when a claim cannot be read, or else a bound manifest does not parse, or else claims bind each other in a cycle (under a hash that separates the manifests; each failure has its cause under any hash) |
| Bind.CommitRoundTrip | crates/tydence/src/stamp/bind.rs:76-96 | a commit annotation reads back as the commit it was written for |
| Bind.CommitHexExact | crates/tydence/src/stamp/bind.rs:76-96 | the annotation is the commit's id in lowercase digits |
| Bind.FromHexExact | crates/tydence/src/audit.rs:404-406 | an annotation leads to the commit its digits spell, in either case |
| BindMeaning.BindingSetExact | crates/tydence/src/stamp/bind.rs:76-157 | a binding set is exactly one group for each manifest at a nearest claim: id, hashes and every token of it, under the least annotation |
| Snapshot.TraverseRepositoryTree | crates/tydence/src/snapshot.rs:321-376 | one tree's files go to the sink and its gitlinks become child trees, with every refusal |
| Snapshot.Run | crates/tydence/src/snapshot.rs:378-402 | the worklist ends by a measure over unvisited ancestors, succeeds exactly when the recursive enumeration does, collects the same entries, and otherwise fails with the first failure in queue order |
| Repository.FileModeExact | crates/tydence/src/snapshot.rs:35-41 | raw bits are read as a mode exactly when the mode's written form is their octal spelling |
| SnapshotMeaning.EntriesMean | crates/tydence/src/snapshot.rs:321-402 | a snapshot lists exactly the files at the end of a way down the submodules, each with its path, octal mode, size and hashes; only the root leaves the stamp's own files out |
| SnapshotMeaning.TakenExactly | crates/tydence/src/snapshot.rs:321-402 | it can be taken exactly when every tree on such a way is stored, with recordable files and gitlinks that lead on |
| SnapshotMeaning.RunFault | crates/tydence/src/snapshot.rs:229-402 | a failing run names what is wrong with a tree it reaches |
| Snapshot.ChildRank | crates/tydence/src/snapshot.rs:274-293 | the ancestor check makes every chain of submodules shrink what is left to visit |
| SnapshotPaths.EnumerateDiffers | crates/tydence/src/snapshot.rs:57-63 | the entries of a snapshot of git trees have pairwise distinct paths under their prefix, submodules included |
| SnapshotMembers.EnumerateRerooted | crates/tydence/src/snapshot.rs:229-293 | a submodule enumerates the same below another root, unless its chain comes to that root |
| Config.Run | crates/tydence/src/config.rs:416-443 | lexing and the builder together compute the specified reading |
| Config.Builder.Read | crates/tydence/src/config.rs:369-391 | one directive updates scope, maps and references as specified, or fails with its line |
| Config.Builder.Close | crates/tydence/src/config.rs:209-244 | closing a block stores it, or reports it incomplete |
| Config.Builder.Complete | crates/tydence/src/config.rs:393-409 | references resolve at the end, the first dangling one reported |
| ConfigFaults.ParseFault | crates/tydence/src/config.rs:209-443 | a refused text is told its first line at fault and how, a block left unfinished, or a selection of an undefined site |
| ConfigBlocks.ParsesAsUnion | crates/tydence/src/config.rs:206-409 | a text parses exactly when its blocks each read alone, define nothing twice and refer to nothing undefined, and means their union |
| ConfigBlocks.BlockOrderIsFree | crates/tydence/src/config.rs:183-204 | a text that parses keeps its meaning under every reordering of its blocks |
| ConfigBlocks.ReorderedTextMeansTheSame | crates/tydence/src/config.rs:416-443 | the same with the lines counted anew: line numbers only ever name a fault |
| ConfigBlocks.ParsedIsUsable | crates/tydence/src/config.rs:246-326 | every parsed profile selects at least one site, no site twice, and only defined sites, under valid names and HTTPS URLs |
| ConfigMeaning.SiteBlockExact | crates/tydence/src/config.rs:246-367 | a site block is accepted exactly when it defines a site, by one URL line and one imprint line in either order and nothing else, and then it defines that site alone |
| ConfigMeaning.ProfileBlockExact | crates/tydence/src/config.rs:272-326 | a profile block is a run of selections repeating no site, and defines them in their written order |
| ConfigMeaning.TokensKeepEverything | crates/tydence/src/config.rs:433-440 | tokens are non-empty, free of blanks, and keep every other byte of the line |
| ConfigMeaning.TokensOfSpread | crates/tydence/src/config.rs:433-440 | a line of tokens between spaces and tabs has exactly those tokens |
| ConfigMeaning.EveryLineIsSpread | crates/tydence/src/config.rs:433-440 | every line is one |
| ConfigMeaning.LexLineExact | crates/tydence/src/config.rs:421-440 | one carriage return at the end is tolerated; a line whose first visible byte is `#` says nothing |
| ConfigMeaning.LexLinesExact | crates/tydence/src/config.rs:416-440 | every line that says something keeps its words and its number |
| ConfigMeaning.NameExact | crates/tydence/src/config.rs:125-144 | names are 1 to 64 letters, digits, `-` and `_`, with a letter or digit at both ends |
| ConfigMeaning.UrlExact | crates/tydence/src/config.rs:146-152 | URLs are `https://` and at least one visible ASCII byte |
| Acquire.Run | crates/tydence/src/stamp/acquire.rs:145-228 | resolution loop, token loop and early aborts compute the specified outcome |
| Acquire.ResolveExact | crates/tydence/src/stamp/acquire.rs:161-182 | every selection resolves exactly when no site is undefined or repeated |
| Acquire.SuccessIsSound | crates/tydence/src/stamp/acquire.rs:183-228 | tokens and warnings split the selections in order; tokens are non-empty and verified under their own CRLs; warnings only where the selection continues on error |
| Acquire.SuccessExact | crates/tydence/src/stamp/acquire.rs:183-228 | acquisition succeeds exactly when no failure is fatal and some selection yields a sealable token |
| AcquireMeaning.SealableExact | crates/tydence/src/stamp/acquire.rs:183-228 | a token is sealable exactly when it was drawn, its CRLs fetched and it verified under the base CRLs and the fetched ones; the cause is that of the step that failed |
| AcquireMeaning.AcquiredExact | crates/tydence/src/stamp/acquire.rs:145-228 | the answer accounts for every selection in order by its token or its cause, or names the first fatal failure, or reports that no token came |
| Acquire.ParsedProfilesResolve | crates/tydence/src/stamp/acquire.rs:156-182 | for a profile of a parsed configuration an unknown or repeated site is never reported |
| TreeAgreement.IndexByPath | crates/tydence/src/verify/tree.rs:104-112 | the ordered index holds the entries by path, or the first repeated path is reported |
| TreeAgreement.Run | crates/tydence/src/verify/tree.rs:117-158 | the two loops compute the comparison |
| TreeAgreement.ReportsEveryDisagreement | crates/tydence/src/verify/tree.rs:130-157 | the disagreements reported are exactly those there are |
| TreeAgreement.AgreementExact | crates/tydence/src/verify/tree.rs:114-158 | check 2 passes exactly when neither side repeats a path and both list the same entries |
| StampVerdict.Run | crates/tydence/src/verify/stamp.rs:154-197 | the early returns and the token loop compute the verdict |
| StampVerdict.VerdictExact | crates/tydence/src/verify/stamp.rs:150-197 | the verdict is favourable exactly when the manifest parses, the tree agrees, every group is linked and some token verifies |
| StampVerdict.SummaryIsHonest | crates/tydence/src/verify/stamp.rs:173-197 | a passed verdict reports the verified digests and every token, in order, as it fared |
| Seal.TreeEditor.Remove | crates/tydence/src/stamp/seal.rs:96-103 | removing an entry drops the file or the whole directory |
| Seal.TreeEditor.Upsert | crates/tydence/src/stamp/seal.rs:108-126 | an upserted file displaces a directory at its path and files above it |
| Seal.StampTree | crates/tydence/src/stamp/seal.rs:90-132 | the edits in sequence give the sealed tree |
| Seal.SealedHolds | crates/tydence/src/stamp/seal.rs:90-132 | the sealed tree holds exactly the manifest, one file for each token, and every surviving file unchanged |
| Seal.SealedAreFiles | crates/tydence/src/stamp/seal.rs:90-132 | sealing leaves a tree in which no file is also a directory |
| SealedSnapshot.SealedEnumerates | crates/tydence/src/snapshot.rs:16-21 | the sealed tree enumerates to exactly the content's entries less those its artifacts displace |
| SealedSnapshot.DisplacedWithItsLink | crates/tydence/src/snapshot.rs:16-21 | an entry below a gitlink is displaced exactly when the gitlink is |
| Create.Run | crates/tydence/src/stamp/create.rs:335-437 | manifest, text, tokens and sealed tree of a created stamp, each from where it comes; each failure is that of its own step on what the steps before it produced |
| Create.ReadConfig | crates/tydence/src/stamp/create.rs:289-315 | the policy is the parse of a readable regular file of UTF-8 text at the policy path; a fault is that file's, and it is missing exactly when nothing stands there |
| Create.ReadConfigExact | crates/tydence/src/stamp/create.rs:289-315 | in a tree, the outcome is decided by the one entry at the policy path: unreadable, its configuration, or its fault |
| Audit.JudgeClaim | crates/tydence/src/audit.rs:369-446 | artifacts, snapshot, bound stamps and verdict, in that order of failure |
| Audit.BindingsExact | crates/tydence/src/audit.rs:391-412 | the bound stamps resolve, in group order, exactly when each annotation leads to readable artifacts |
| AuditMeaning.AuditExact | crates/tydence/src/audit.rs:369-446 | for every commit: the audit is favourable exactly when the tree enumerates, the manifest parses and lists it, every annotation leads to a stamp that reproduces its group, and some token verifies |
| AuditMeaning.FailureExact | crates/tydence/src/audit.rs:369-446 | a failure is that of the first step that fails: artifacts, snapshot, the first unresolvable group, or the first failed check with its cause |
| FreshStamp.FreshStampVerdict | crates/tydence/src/stamp/create.rs:345-437 | end to end: a fresh stamp never fails for artifacts, snapshot, bindings, manifest, linkage or lack of tokens; it fails check 2 exactly when a content file stood in its artifacts' way; otherwise it stands exactly when some sealed token verifies |
| StampAndAudit.Run | crates/tydence/src/stamp/create.rs:335-437 | the same as one run: a stamp is created, written to the stores and audited, with that verdict |
| StampAndAudit.WrittenIsSealed | crates/tydence/src/stamp/seal.rs:137-153 | writing the sealed tree and its commit under fresh names is all the end-to-end theorem asks of the stores |
| FreshStamp.CreatedReadsBack | crates/tydence/src/stamp/create.rs:355-366 | the manifest a create writes always parses back |
| FreshStamp.SealedArtifacts | crates/tydence/src/claims.rs:150-173 | reading a sealed tree yields its manifest and exactly its tokens |
| FreshStamp.GroupLinks | crates/tydence/src/audit.rs:391-428 | a bound group still leads to its stamp in any later history, and is linked to it |
| FreshStamp.AgreesUnlessDisplaced | crates/tydence/src/verify/tree.rs:117-158 | the audited entries agree with the manifest's exactly when sealing displaced nothing |
| FreshStamp.DisplacesByRecords | crates/tydence/src/stamp/seal.rs:96-126 | a fresh stamp displaces something exactly when the content holds a file at or below a path sealing takes, or a gitlink there whose submodule is not empty |
| SampleStamp.StrayFileFailsItsStamp | crates/tydence/src/stamp/seal.rs:99-103 | a concrete content tree and the stamp created of it: with a file at the token directory's path the audit finds the tree disagreeing with the manifest; without it the stamp stands exactly when its one token verifies |
| SampleStamp.SampleIsCreated | crates/tydence/src/stamp/create.rs:335-437 | that stamp meets every clause of what creating promises: policy read from its bytes, snapshot, empty binding set, text, acquisition, sealed tree |
| X509.DecodedExact | crates/tydence/src/verify/x509.rs:112-139 | an extension decodes exactly when its identifier occurs once, decodably; it is absent exactly when it never occurs |
| X509.DecodedFault | crates/tydence/src/verify/x509.rs:112-139 | a fault is a second occurrence or one that does not decode |
| X509.DecodeExtension | crates/tydence/src/verify/x509.rs:112-139 | the scanning loop computes that decoding |
| Revocation.EnsureUnrevoked | crates/tydence/src/verify/revocation.rs:232-267 | the loops over CRLs and entries compute the status |
| Revocation.UnrevokedExact | crates/tydence/src/verify/revocation.rs:144-267 | the status is good exactly when the issuer may sign CRLs, some admissible CRL decides genTime, and none lists the serial adversely |
| RevocationMeaning.GoodStatusExact | crates/tydence/src/verify/revocation.rs:144-267 | the same spelled out by names, signatures, dates, reasons and key usage |
| RevocationMeaning.StatusFault | crates/tydence/src/verify/revocation.rs:180-267 | a refusal has its reason in the issuer, in the CRLs at hand, or in an entry of one |
| Revocation.OnlyTheSetOfCrlsMatters | crates/tydence/src/verify/revocation.rs:227-267 | order and repetition of the CRLs play no part |
| Revocation.EarlierIsUnrevokedToo | crates/tydence/src/verify/revocation.rs:180-225 | a status good at one genTime is good at every earlier one |
| CertificatePath.ValidateChain | crates/tydence/src/verify/path.rs:260-317 | the bounded loop computes the walk |
| CertificatePath.FirstIssuerExact | crates/tydence/src/verify/path.rs:288-300 | an issuer is found exactly when some candidate is another certificate, valid at genTime, of the issuer's name and key; it is the earliest such |
| CertificatePath.AcceptedExact | crates/tydence/src/verify/path.rs:260-317 | the signer is accepted exactly when taking the earliest qualifying issuer, anchors before companions, leads through at most eight certificates to an anchor, every link holding |
| CertificatePath.RefusedAtFault | crates/tydence/src/verify/path.rs:260-317 | a refused walk came through certificates whose links hold to one at fault, with that fault; or through too many |
| CertificatePath.AcceptedChainIsSound | crates/tydence/src/verify/path.rs:30-317 | acceptance means a chain to an anchor with at most eight certificates below it, none twice, all valid at genTime, each screened, signed, unrevoked, and each intermediate an authority admitting exactly the intermediates below it |
| CertificatePath.NoCertificateTwice | crates/tydence/src/verify/path.rs:260-317 | a walk that met a certificate twice would never reach an anchor |
| CertificatePath.FitnessExact | crates/tydence/src/verify/path.rs:209-253 | an issuer is fit exactly when it is an authority within its path length that may sign certificates |
| Staging.Checkout.SyncArtifacts | crates/tydence/src/staging.rs:221-305 | a run that finishes leaves index and working tree as HEAD has them; one that stops part way has touched only the files it was to write or remove, leaving any content on those it was writing, and left the index alone |
| Staging.SyncedAgrees | crates/tydence/src/staging.rs:208-305 | HEAD, index and working tree agree on every sealed path, stale artifacts are gone from both, everything else is untouched |
| Staging.SealedFilesExact | crates/tydence/src/staging.rs:166-206 | HEAD's managed files are the manifest and whatever stands directly in the token and LTV directories, no more and no fewer |
| Staging.HeadIsSynced | crates/tydence/src/staging.rs:208-305 | after a finished run each of those stands in index and working tree with HEAD's content, artifacts HEAD lacks have left the index and the tree, and nothing else has moved |
| Staging.SyncingTwiceIsSyncingOnce | crates/tydence/src/staging.rs:208-305 | a second run changes nothing |
| Staging.InterruptedRunConverges | crates/tydence/src/staging.rs:216-220 | a run interrupted after any step, a write cut short included, and then repeated ends where an uninterrupted one does |
| Staging.SealedFilesApart | crates/tydence/src/staging.rs:166-206 | HEAD names every stamp-managed path once |
| Staging.Checkout.StageDeposits | crates/tydence/src/staging.rs:113-162 | deposits are queued and the changed ones reported |
| Staging.DepositsQueue | crates/tydence/src/staging.rs:108-162 | every deposit ends up queued, and the answer names exactly those that were not |
| Staging.DepositedExact | crates/tydence/src/staging.rs:113-162 | the entry of each deposit afterwards, mode and trust included; every other entry as it was |
| Staging.StagingTwiceIsStagingOnce | crates/tydence/src/staging.rs:108-162 | queueing again changes nothing and reports nothing |
| Staging.Checkout.DropArtifacts | crates/tydence/src/staging.rs:326-362 | the artifacts leave index and working tree, and nothing else does; the answer is their sorted, duplicate-free list |
| Staging.DroppedOnce | crates/tydence/src/staging.rs:322-362 | after dropping there is nothing to drop |
| Staging.DroppedExact | crates/tydence/src/staging.rs:326-362 | what leaves index and working tree and what the answer names, by path |
| Trailers.TrailersAreAbsorbed | crates/tydence/src/stamp/create.rs:212-244 | stamping a stamped message gives what stamping the message gives, exactly when no carriage return precedes a line break in its body |
| Trailers.DoubledReturnIsNotAbsorbed | crates/tydence/src/stamp/create.rs:212-244 | a message for which it does not: one return of two goes in the first stamping, the other in the second |
| Trailers.NoReturnNoReturnBreak | crates/tydence/src/stamp/create.rs:227-234 | a message without carriage returns always meets that condition |
| Trailers.EndsInTrailers | crates/tydence/src/stamp/create.rs:185-244 | the result ends in a trailer block: the one the body ended in, if any, then the stamp's two lines |
| TrailerMeaning.StampedMessageExact | crates/tydence/src/stamp/create.rs:212-244 | the stamped message is the lines that do not begin `Tydence-Stamp:`, in order, up to the last visible character, a break, and the two trailers |
| TrailerMeaning.LinesExact | crates/tydence/src/stamp/create.rs:227-231 | lines end at a line feed and the one return before it; what follows the last line feed is a line unless empty |
| TrailerMeaning.WhitespaceExact | crates/tydence/src/stamp/create.rs:233 | white space is Unicode's, by code point |
| TrailerMeaning.TrailerExact | crates/tydence/src/stamp/create.rs:201-208 | a trailer is a token of letters, digits and hyphens, a colon, and something visible |
| TrailerMeaning.TrailerBlockExact | crates/tydence/src/stamp/create.rs:190-209 | a trailer block is a paragraph after a blank line, not empty, of trailers only |

## Left out

- Transport, retries, TLS, PEM and DER decoding, CMS, the inside of token
  verification and the response screening: library calls and long sequences of
  independent checks; one deterministic function stands for each.
- SHA-2, SHA-3 and signature algorithms: uninterpreted functions; that distinct
  manifests have distinct sha256 values is a hypothesis where it is needed.
- LTV records: their refresh and deposit, and their mirroring onto the content
  tree (`apply_ltv_records`); the content tree of `Create` is the one they were
  already mirrored onto.
- The commit object, the branch reference and its compare-and-swap, and the
  on-disk format of the index: object stores are finite maps that only grow.
- `.gitmodules` parsing and the choice between module store and embedded
  repository: one resolution function from repository, `.gitmodules` bytes,
  gitlink path and commit to a tree; its several failures are one error.
- The regular-expression engine, the text of the UCD data lines and the
  contents of the data file: a category predicate over parsed lines.
- Auditing several claims, collecting trust material and reporting deposits
  (`audit.rs` beyond `judge_claim`): maps over what is modelled.
- Command line, help texts, `Display` and `Error` implementations.
- Completeness of chain building: the walk commits to the first issuer that
  signed and never goes back.
- Bytes of more than 64-bit length: such a blob counts as unreadable.
- FreshStampVerdict: asks that no gitlink below the content leads to the sealed
  tree itself, which would take a cycle of hashes, and that stored trees are
  trees (unique names, no file that is also a directory).
- Staging.Checkout.SyncArtifacts: an index entry that exists keeps its mode, as
  in the source, so agreement is on content; directories of the working tree
  are implied by their files, so an empty token directory is not seen.
- Staging.Checkout.DropArtifacts: an empty token directory is not seen there
  either, and so not removed.
- Audit.JudgeClaim: failures of object access other than in reading artifacts
  and trees are not distinguished.
