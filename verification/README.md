# arx-dns: a verified model of the zone store, the signer, the resolver and the matchers

arx-dns is a DNS server. This project models the parts of it that transform zones, walk delegations, keep
caches and match names, and proves what they promise for all inputs and all runs. Everything is Dafny 4.11;
`dafny verify dfyconfig.toml` checks the whole project.

## What is modelled

* **Zone data** (`Names`, `LabelSuffixes`, `CaseFolding`, `Records`, `Printing`, `ZoneData`, `UpdateStandard`,
  `ZoneTree`; `Wrappers`, `Filters` and `Arithmetic` are helpers). A zone tree is a heap object from names to
  mutable tables from type to record list. Cloning, inserting and the three ways of deleting are methods on it,
  each tied to a function on the tree's contents. These operations refine a flat table from name and type to
  records; `UpdateStandard` states the rules of section 3.4 of RFC 2136 on that table, with zones taken by labels,
  and proves when the store follows them. `Printing` and `CaseFolding` say which data prints alike and which
  records and names count as equal.
* **The store and dynamic updates** (`Store`, `ZoneNames`, `DynamicUpdate`, `ReplyCodes`). The store holds one tree
  per view. A mutation clones, edits the clone, publishes it and persists it. A ghost map remembers every tree ever
  published with its contents at that moment, so that isolation of readers can be stated. Requests pass their checks
  in the server's order; the prerequisite checks are compared with section 3.2 of RFC 2136, and every refusal is
  traced to the record that causes it.
* **Signing** (`Signer`, `SignedZone`, `SignatureFields`, `CanonicalOrder`, `NsecGaps`, `SignedGaps`, `SignedTree`).
  SOA handling, NSEC chain, bitmaps, one signature per record set with every field of it, what a validator makes of
  them, denial of absent names, signing inside a tree and its inverse.
* **Iterative resolution** (`Responses`, `Rounds`, `Iterative`). The network is an arbitrary function of all queries
  sent so far. Every query of a run is accounted for by a round, and every round by the responses before it.
* **Chain of trust** (`Validator`). Cryptography and the resolver are arbitrary functions.
* **Named match lists** (`AccessLists`). The reference check and the matcher it makes safe.
* **Round-trip times** (`RttRegistry`, `RttSweep`). A state machine over the atomic steps of any number of recording
  threads and one sweeper, and what the sweeper takes away.
* **Answers and cache** (`Answers`, `CacheKeys`, `ResponseCache`). Alias chains and views; cache entries on
  the heap against a timed map, and that map over whole runs.
* **Matchers** (`DomainMatch`, `Blocklist`, `ResponsePolicy`). Reversed domains, longest prefixes, rule tables on the
  heap, and rules added concurrently by compare-and-swap.
* **Texts and streams** (`TextForms`, `Ttl`, `Grammars`, `Transfer`, `LogStream`). TXT values, owner names, TTL
  notation, zone transfers and log lines; what the readers accept, as grammars.

## Where the code differs from what one might expect

* Names are ordered for the NSEC chain by a count of shared labels compared with -1
  (`internal/dnssec/signer.go:191-193`), which is not an order. The sort is therefore any rearrangement. The
  chain is still one circle, but an absent name is denied once exactly when the circle ascends
  (`SignedGaps.DeniedOnceIff`). That is certain exactly up to two owner names (`SignedGaps.AlwaysDeniedOnceIff`);
  three hosts are enough for a zone that denies an absent name twice (`SignedGaps.UnsortedZoneExists`).
* The NSEC bitmap at the origin always lists RRSIG, NSEC and DNSKEY, but it is exact only if the origin owns a
  record of its own (`internal/dnssec/signer.go:46-60`).
* A mutation publishes its tree before persisting it, and persisting re-signs that tree in place when keys
  exist (`internal/storage/mutations.go:333-341`, `internal/storage/dnssec.go:115-119`). Readers that load the
  tree in between keep what they loaded if the zone has no keys; if it has keys and persisting succeeds they see it
  change (`Store.PersistedIffNoKeys`), provided the zone is one that signing changes: its origin holds an SOA with
  SOA data, or no DNSKEY yet. For a zone with keys, a DNSKEY and no such SOA, re-signing may reproduce the very
  tree, and then nothing is seen; and when persisting fails the tree changed exactly if signing did not fail first.
* The value-dependent prerequisites of section 3.2 of RFC 2136 ask for equal record sets; the server asks of each
  listed record alone whether it is there (`internal/dnsproc/update.go:163-166`), so it also passes a section
  that lists only part of a set (`DynamicUpdate.SupersetPasses`). It also passes class ANY and NONE prerequisites
  that carry data, which the standard calls malformed (`DynamicUpdate.DataPasses`), and any TTL.
* The update rules differ from section 3.4 of RFC 2136 exactly as `UpdateStandard.FollowsIffAgrees` says. A
  deletion of nothing fails the whole section instead of being ignored, an SOA is refused, aliases may stand beside
  other data, equal data is stored twice, and the NS records of the origin can be deleted
  (`internal/storage/update_apply.go:21-59`). Nothing is scanned beforehand: a deletion that carries data
  (`UpdateStandard.DataIsIgnored`), a TTL or a meta type goes through, a name behind an escaped dot is taken
  (`UpdateStandard.EscapedDotIsAdded`), and in the root zone every name with a label is refused
  (`UpdateStandard.RootTakesNothing`).
* A class ANY, type ANY deletion removes the SOA of the owner it names
  (`internal/storage/update_apply.go:45-51`). A deletion by value compares with the trimmed text, so a stored
  value with blanks around it cannot be deleted.
* The alias walk reports a server failure for eight aliases in a row even if the ninth name has an address
  (`internal/dnsproc/processor.go:789-821`).
* Only the longest stored prefix is looked at, on the blocklist and for policies
  (`internal/firewall/engine.go:80-88`, `internal/rpz/engine.go:198-207`); a longer entry that ends inside a
  label, or a policy for the name itself, hides a shorter one that covers the name. A queried name is normalised
  twice on that path (`internal/rpz/engine.go:315-322`), which differs from once exactly if the first time leaves a
  final dot or a blank at an end: for names with an empty last label, and for a last label that ends in a blank.
* Names are compared and cut as text (`internal/storage/tree.go:32-40`, `internal/firewall/engine.go:73-104`,
  `internal/dnsproc/validator.go:322-334`). By labels, an escaped dot is no boundary: such a name counts as inside a
  zone it is not in (`LabelSuffixes.EscapedDotLeavesZone`), and such a signer gets zone cuts that are no zones above
  it. For the root the test looks for two dots, so no name with a label counts as inside it
  (`LabelSuffixes.RootLacksNames`).
* A deletion by value compares printed data (`internal/storage/records.go:586-625`). For the types modelled that is
  comparing data (`Printing.PrintsAlikeIff`), but for TXT the chunks are joined by blanks: the chunks "a" and "b" print
  like the one chunk "a b", so deleting either deletes both (`Printing.TxtPrintsAlikeIff`).
* A record that no signature covers passes as authenticated beside signed ones
  (`internal/dnsproc/validator.go:45-83`).
* A recording that is past its look-up when the sweeper is past its check finishes in an entry that the sweeper then
  takes out (`internal/dnsproc/rtt.go:201-211`); its sample is in no entry that can be looked up. A stamp that is not
  below the cutoff at the check keeps the entry (`RttSweep.MappedUnlessFoundIdle`).
* A zero TTL in the answer or the authority section reads as if that section were empty
  (`internal/storage/cache.go:191-197`). A response that is not negative is stored if the other section has records
  and no zero (`ResponseCache.StoredIff`), and then never served because of the zero.
* The formatter of cache keys writes every address family other than 1 as 2 (`internal/storage/ecs.go:88-100`). The
  DNS library lets only the families 0, 1 and 2 through from the wire.
* The 64-bit sum of a TTL can wrap from 7102 components on (`internal/storage/ttl.go:28-57`); a text of so many
  components that means more than 2^64 seconds is accepted as 579584 seconds.
* The searches for an enclosing zone return the shortest suffix that qualifies
  (`internal/dnsproc/processor.go:738-748`), so inside a nested zone the outer SOA is found
  (`Answers.NestedZoneGetsOuterSoa`).

## Model

| member | source | states |
|---|---|---|
| Names.NormalizeIsNormal | internal/storage/memory.go:97-108 | the normal form of a name is a fixed point, lower-case, trimmed and ends in a dot |
| CaseFolding.SameKeyIff | internal/storage/memory.go:97-108 | two names without blanks around them are filed under one key if and only if they are equal letter by letter up to case and a final dot |
| CaseFolding.DuplicateIff | internal/storage/tree.go:152-167 | two records count as duplicates if and only if class and type agree, owner and names in the data up to case, and all other fields exactly; TTLs do not matter |
| Names.CanonicalIsNormal | internal/dnssec/signer.go:172-184 | on names as the DNS library delivers them its canonical form is the store's normal form, so signer and store agree on keys |
| Names.MembershipOfNormalForms | internal/storage/tree.go:32-40 | zone membership depends only on normal forms, and every origin is in its own zone |
| Names.LabelsOfSuffix | internal/dnsproc/iterative.go:202-209 | joining the last labels of a name gives a name with exactly those labels, escaped dots included |
| LabelSuffixes.TextSuffixIsLabelSuffix | internal/storage/tree.go:32-40 | the labels of one name end those of another exactly when it ends the text after a dot that no backslash escapes |
| LabelSuffixes.MembershipByLabels | internal/storage/tree.go:32-40 | for fully qualified names and every origin, the test for zone membership agrees with membership by labels exactly unless the text misleads: any name with a label and the root, or a name whose dot in front of another origin is escaped |
| LabelSuffixes.EscapedDotLeavesZone | internal/storage/tree.go:32-40 | a\\.b. passes for a name in the zone b., though it is none by labels |
| LabelSuffixes.RootLacksNames | internal/storage/tree.go:32-40 | no name counts as inside the root zone but the root itself and names with an empty last label |
| ZoneData.RRsetAfterUpdate | internal/storage/update_apply.go:21-59 | what an accepted update record does to every record list of the tree, named or not |
| ZoneData.RRsetAfterSection | internal/storage/update_apply.go:11-19 | an accepted section is its records' effects, in order, on every record list |
| ZoneData.UpdateKeepsInvariants | internal/storage/update_apply.go:21-59 | no update leaves an empty name or type, or a record under a foreign key |
| ZoneData.SectionKeepsInvariants | internal/storage/update_apply.go:11-19 | the same over a whole section, accepted or not |
| ZoneData.NameExistsIffRecord | internal/storage/memory.go:187-193 | a name is in the tree if and only if it has a record |
| ZoneData.UpdateRefinesTable | internal/storage/update_apply.go:21-59 | one update on the tree is the same update, with the same verdict, on a flat table |
| ZoneData.SectionRefinesTable | internal/storage/update_apply.go:11-19 | a section on the tree is the same section on a flat table |
| ZoneData.SectionLeavesOtherNames | internal/storage/update_apply.go:11-19 | names outside the zone never change |
| ZoneData.SectionAndSoa | internal/storage/update_apply.go:21-59 | an accepted section keeps the SOA records of a name unless it holds a deletion of everything at that name |
| ZoneData.DeleteOwnValue | internal/storage/tree.go:72-112 | deleting by value succeeds exactly when a stored record prints to the trimmed value |
| Printing.PrintsAlikeIff | internal/storage/records.go:586-625 | data of one form whose names and texts hold no blank prints alike if and only if it is equal, for addresses, hosts, aliases, MX, SOA, NSEC, RRSIG, DNSKEY and DS |
| Printing.TxtPrintsAlikeIff | internal/storage/records.go:586-625 | TXT values print alike if and only if their chunks, cut at blanks, give the same pieces |
| Printing.DeletionIsByData | internal/storage/update_apply.go:40-44 | an update of class NONE removes from its list exactly the records with its data, leaves those with other data in order, and touches no other list; it fails if there is none |
| Printing.TypedDeletionIsByData | internal/storage/mutations.go:101-148 | the same for a deletion by a value that someone types in |
| UpdateStandard.FollowsIffAgrees | internal/storage/update_apply.go:21-59 | an update record has the verdict and effect of section 3.4 of RFC 2136 (zone by labels, no data in class ANY) if and only if it is malformed or outside and turned down, or well formed, taken, and does nothing that the standard prevents: data beside an alias, data twice, the SOA or the last NS of the zone |
| UpdateStandard.AgreedSection | internal/storage/update_apply.go:11-19 | a section whose records all agree in turn has the effect that the standard gives it |
| UpdateStandard.EmptyDeletionFailsSection | internal/storage/update_apply.go:42-56 | a deletion of a type, name or value that is not there, which the standard ignores, turns the section down, whatever was accepted before it |
| UpdateStandard.ForeignNameChangesIff | internal/storage/update_apply.go:11-31 | a name that is not in the zone by labels can be changed by some section if and only if its dot in front of the origin is escaped |
| UpdateStandard.EscapedDotIsAdded | internal/storage/update_apply.go:28-40 | a record at a\\.b. is accepted in the zone b. |
| UpdateStandard.RootTakesNothing | internal/storage/update_apply.go:28-31 | in the root zone a record at any name with a label is refused as outside the zone |
| UpdateStandard.DataIsIgnored | internal/storage/update_apply.go:45-56 | a deletion of a set that carries data is malformed, yet deletes the set |
| ZoneTree.CloneTree | internal/storage/tree.go:10-30 | the clone has the same contents and shares no table with the tree |
| ZoneTree.InsertRR | internal/storage/memory.go:122-141 | inserting appends to the list of the record's name and type and touches nothing else |
| ZoneTree.RemoveMatchingRR | internal/storage/tree.go:72-112 | all records of the printed value go, which by Printing.RemovalIsByData are those of the same data; empty types and names are dropped; reports whether any went |
| ZoneTree.RemoveRRset | internal/storage/tree.go:116-139 | the whole type goes, or the name for type ANY |
| ZoneTree.RemoveAllAtName | internal/storage/tree.go:142-149 | the name goes; reports whether it was there |
| ZoneTree.ApplyUpdateRR | internal/storage/update_apply.go:21-59 | one update record in place: contents and error are those of the update rules |
| ZoneTree.ApplyUpdateSection | internal/storage/update_apply.go:11-19 | the section in place, stopping at the first error |
| ZoneTree.CollectZoneRecords | internal/storage/tree.go:42-61 | lists every record of the zone, each list in order, and nothing else |
| Store.Memory.ZoneExistsLocked | internal/storage/mutations.go:150-155 | a zone exists when it is registered or its origin holds an SOA |
| Store.Memory.Swap | internal/storage/memory.go:67-81 | publishing a tree replaces one view and keeps isolation |
| Store.Memory.PersistZoneFile | internal/storage/dnssec.go:109-126 | signs in place when keys exist, then writes; says when it fails and what the tree then holds |
| Store.Memory.Commit | internal/storage/mutations.go:333-341 | publishing before persisting: without keys every tree ever published stays as it was; with keys, for a zone that signing changes, isolation is lost whenever persisting succeeds |
| Store.Memory.ApplyDynamicUpdate | internal/storage/mutations.go:314-343 | all or nothing: any failing record leaves the store as it was, else a clone with the whole section is published |
| Store.Memory.AddZoneRecord | internal/storage/mutations.go:65-98 | every error path leaves the store as it was, else a clone with the record added is published |
| Store.Memory.DeleteZoneRecord | internal/storage/mutations.go:101-148 | the order of checks; an SOA is refused; else a clone without the matching records is published |
| Store.Memory.EnableDnssec | internal/storage/dnssec.go:206-240 | publishes a signed clone only after it was written, so isolation holds; a failure changes at most the keys |
| Store.Memory.DisableDnssec | internal/storage/dnssec.go:243-282 | publishes a stripped clone only after it was written; a failure changes at most the keys |
| Store.Memory.CreateZone | internal/storage/zones_crud.go:22-68 | an invalid name or an existing zone is refused; else the SOA of the new zone file (Store.InitialSoaFields) joins a clone and the zone is registered and exists |
| Store.Memory.DeleteZone | internal/storage/zones_crud.go:72-110 | an invalid name or an unknown zone is refused; else every name of the zone goes, other names stay, and the zone no longer exists even if deleting the file fails |
| Store.SignStepChangesZone | internal/storage/mutations.go:333-341 | signing a zone whose origin holds an SOA with SOA data, or no DNSKEY yet, always changes it |
| Store.PersistedIffNoKeys | internal/storage/dnssec.go:109-126 | persisting leaves the tree alone without keys; for a zone that signing changes, and when it succeeds, it does so if and only if there are no keys; when it fails, exactly if signing failed |
| ZoneNames.ValidateZoneName | internal/storage/validate.go:11-50 | accepts exactly the names of non-empty labels of at most 63 octets of letters, digits and inner hyphens, without slashes |
| ZoneNames.ValidNameIsNotRoot | internal/storage/validate.go:11-50 | no valid name means the root, so a zone file always has a path |
| ZoneNames.ValidNameHasNoSlash | internal/storage/validate.go:11-50 | a valid name, blanks and final dot included, holds no slash of either kind |
| DynamicUpdate.StandardIffNoSurplus | internal/dnsproc/update.go:133-213 | a prerequisite section holds by section 3.2 of RFC 2136 (zone by labels, groups of records as equal sets) if and only if all tests pass, all names are in the zone, all records are well formed and the zone has no record at a listed name and type that duplicates none listed; of what the server passes, exactly what fails one of the last three is turned down by the standard |
| DynamicUpdate.StricterOnlyAtRoot | internal/dnsproc/update.go:215-223 | what the server turns down and the standard accepts concerns the root zone |
| DynamicUpdate.DataPasses | internal/dnsproc/update.go:142-162 | a prerequisite that a set exists passes although it carries data |
| DynamicUpdate.SupersetPasses | internal/dnsproc/update.go:163-166 | a section that lists one of two records passes although the standard wants both |
| DynamicUpdate.CheckPrerequisitesOf | internal/dnsproc/update.go:133-176 | the loop over a view of the store returns the first failure and changes nothing |
| DynamicUpdate.ResolveUpdateView | internal/dnsproc/update.go:121-131 | the public view is updated when the zone exists there, else the internal one |
| DynamicUpdate.HandleDynamicUpdate | internal/dnsproc/update.go:21-92 | any failing check replies with its code and leaves the store unchanged; else the whole section is published and only persisting can fail |
| ReplyCodes.FirstFailureReplies | internal/dnsproc/update.go:133-176 | the reply to failing prerequisites is, by number, the code of section 3.2.5 of RFC 2136 for the first record that does not hold, on the flat table |
| ReplyCodes.FirstRefusalReplies | internal/storage/update_apply.go:11-59 | the reply to a refused update section is, by number, the code for its first record that is turned down where those before it have been applied |
| DynamicUpdate.HandleAll | internal/dnsproc/update.go:56-75 | over any run of requests without keys no tree ever published changes |
| Signer.FilterUnsignedRecords | internal/dnssec/signer.go:92-105 | drops exactly the records of the three signing types |
| Signer.ZoneTtlOf | internal/dnssec/signer.go:107-116 | the TTL of the first SOA with a positive one, else 300 |
| Signer.EnsureUniqueApexSoa | internal/dnssec/signer.go:119-141 | keeps the first SOA of the origin, moved to the end, and all other records in order |
| Signer.BumpedUnique | internal/dnssec/signer.go:143-170 | with one SOA at the end, bumping raises its serial and changes nothing else |
| Signer.CollectTypesAtName | internal/dnssec/signer.go:172-184 | the types at every owner name, with RRSIG and NSEC |
| Signer.SortedTypes | internal/dnssec/signer.go:203-207 | the bitmap is strictly ascending and has exactly the types |
| Signer.BuildNsecChain | internal/dnssec/signer.go:186-220 | one NSEC record per owner name, each pointing to the next of some enumeration, the last to the first |
| Signer.GroupRRsets | internal/dnssec/signer.go:222-256 | every name and type once, with exactly its records, signatures aside |
| Signer.SignAll | internal/dnssec/signer.go:61-86 | one signature per record set, by the key-signing key for DNSKEY and the zone-signing key otherwise, with the fields of SignatureFields.SignatureIsMade; it fails only when the responsible key does not sign one of these sets |
| Signer.SignZone | internal/dnssec/signer.go:25-90 | fails only without records or when a key does not sign a record set of the zone with its keys and chain; else the output is base records, keys, chain and signatures in some order, every signature as SignatureFields.EverySignatureIsMade says |
| SignedZone.NsecCircle | internal/dnssec/signer.go:186-220 | the NSEC records of a signed zone form one circle through every owner name exactly once, whatever the sort did |
| SignedZone.FollowVisitsAll | internal/dnssec/signer.go:198-219 | following the next pointers reaches every owner name and leads back after exactly that many steps |
| SignedZone.TypesOfSigned | internal/dnssec/signer.go:46-60 | the types present at every name of the output |
| SignedZone.BitmapsAreExact | internal/dnssec/signer.go:46-60 | every bitmap ascends, and lists exactly the types present at its name if and only if the name is not the origin or the origin owns a record |
| SignedZone.OneSignatureEach | internal/dnssec/signer.go:61-86 | every record set of the output has exactly one signature, made over its own records; its fields are those of SignatureFields.EverySignatureIsMade |
| SignatureFields.EverySignatureIsMade | internal/dnssec/signer.go:258-292 | every signature of a signed zone, field by field: inception and expiration of the window, tag and algorithm of the key for its type, the zone as signer, as many labels as the owner has dots, the TTL of the zone, the TTL of its set as original TTL, and a text that the key makes of just these fields and this set |
| SignatureFields.SignedSetValidatesIff | internal/dnsproc/validator.go:86-134 | with keys whose signatures verify, every record set of a signed zone is accepted by a validator that has the keys at its origin if and only if the clock is between the two ends of the window |
| CanonicalOrder.CanonicalOrderIsTotalIff | internal/dnssec/signer.go:191-193 | the canonical order of section 6.1 of RFC 4034, which the sort should use, orders the owner names strictly if and only if no two of them are one name in different spellings |
| CanonicalOrder.CanonicalLessIff | internal/dnssec/signer.go:191-193 | of two names the lesser one in that order is found from the right, at the first label that is absent or differs |
| SignedGaps.DenialsAreGaps | internal/dnssec/signer.go:198-219 | as many NSEC records of a signed zone deny a name as gaps along its circle cover it (section 4.1 of RFC 4034) |
| SignedGaps.DeniedOnceIff | internal/dnssec/signer.go:186-220 | in any strict order an absent name is denied by as many NSEC records of the signed zone as its circle has descents; by exactly one if and only if the pointers ascend all the way round |
| SignedGaps.EveryOrderIsPossible | internal/dnssec/signer.go:186-220 | every enumeration of the owner names is the circle of some signed form of the zone |
| SignedGaps.AlwaysDeniedOnceIff | internal/dnssec/signer.go:186-220 | every signed form of a zone denies an absent name exactly once if and only if the zone has at most two owner names |
| SignedGaps.UnsortedZoneExists | internal/dnssec/signer.go:191-193 | such a zone in the canonical order: hosts at a., b.a. and c.a., and the absent name d.a. |
| SignedTree.StripAllZoneRecords | internal/storage/dnssec.go:139-154 | removes exactly the names of the zone |
| SignedTree.StripDnssecRecords | internal/storage/dnssec.go:156-184 | removes the signing types throughout the zone and drops names left empty |
| SignedTree.ApplySignedRecords | internal/storage/dnssec.go:128-137 | replaces the records of the zone by the signed ones |
| SignedTree.SignTree | internal/storage/dnssec.go:64-84 | signs the zone in the tree; on failure the tree is untouched, and the zone has no records to sign or a record set that its key does not sign |
| SignedTree.SignStepAt | internal/storage/dnssec.go:64-84 | every record list that is not of a signing type survives signing as a multiset; the origin's SOA is one record with its serial raised |
| SignedTree.SignThenStrip | internal/storage/dnssec.go:128-184 | stripping a signed zone gives back the original zone, up to order, with one SOA whose serial is one higher; names outside are untouched |
| SignedTree.SignThenStripRestores | internal/storage/dnssec.go:128-184 | the same by type numbers and fields: types 46 to 48 are gone, of the SOA records of the origin the first is left with nothing changed but the serial, one higher modulo 2^32, and every other list is back |
| SignedTree.SignStepKeepsSignable | internal/storage/dnssec.go:64-84 | a signed zone can be signed again |
| SignedTree.SignTwiceThenStrip | internal/storage/dnssec.go:64-84 | signing twice only raises the serial once more |
| SignedTree.SignStepSetsKeys | internal/storage/dnssec.go:64-84 | a signed zone holds the two keys at its origin |
| SignedTree.RaisedSerialIsGreater | internal/dnssec/signer.go:143-170 | the raised serial is greater in serial number arithmetic (section 3.2 of RFC 1982), also across the wrap |
| Responses.QueryDisclosesSuffix | internal/dnsproc/iterative.go:184-209 | with minimisation on, the question of a round discloses exactly the last min(minLabels, total) labels of its target, of type NS unless it is the whole name (section 2 of RFC 7816) |
| Responses.MatchedAnswers | internal/dnsproc/iterative.go:359-384 | keeps exactly the answers of the asked name and type |
| Responses.CnameTarget | internal/dnsproc/iterative.go:403-415 | the target of the first alias of the name, if there is one |
| Responses.ReferralNs | internal/dnsproc/iterative.go:417-442 | each delegated server once |
| Responses.CollectAddresses | internal/dnsproc/iterative.go:444-483 | exactly the addresses of the wanted names, each once |
| Responses.GlueMeans | internal/dnsproc/iterative.go:444-483 | glue is the A and AAAA addresses in the additional section whose owner an NS record of authority or answer names, and nothing else |
| Responses.HostPortIsInjective | internal/dnsproc/iterative.go:469-475 | no two server addresses are written alike with their port |
| Rounds.ConclusionDecides | internal/dnsproc/iterative.go:138-144 | what the last response means, by rcode, owners, types and sections |
| Rounds.LeadsByFields | internal/dnsproc/iterative.go:146-175 | the next round by the fields of the response: the first alias of the name restarts at the roots, or without one an NS record leads one step down, to the glue if there is any |
| Rounds.EveryQueryDisclosesSuffix | internal/dnsproc/iterative.go:111-242 | with minimisation on, every query of a whole resolution, look-ups of server addresses and failed rounds included, belongs to a round reached from the question through responses; it asks one of that round's servers for exactly its last minLabels labels, and for the whole target only as a fallback (section 2 of RFC 7816) |
| Iterative.QueryServers | internal/dnsproc/iterative.go:270-326 | asks the given servers only, one by one, and gives up only after all of them brought nothing |
| Iterative.QueryDelegation | internal/dnsproc/iterative.go:211-242 | the full name is asked only after the short one failed at all servers or was refused, and the response used is the last one |
| Iterative.Resolve | internal/dnsproc/iterative.go:111-179 | terminates for any network; the whole log falls into rounds, each asking what it may ask and each reached from the question; every step asks the question and the servers its predecessor leads to; by the fields of the last response the outcome is positive, with exactly the answers of the name and type in order, or a denial (a name error, or an empty answer without error beside an SOA), or it failed and the response is neither; a bounded number of queries |
| Iterative.Descend | internal/dnsproc/iterative.go:151-176 | a referral is followed to exactly its glue, or else to exactly the addresses that looking up every delegated host found, disclosing one more label if the question was shortened; says why it may bring no further response |
| Iterative.ResolveGlue | internal/dnsproc/iterative.go:485-507 | every delegated host is looked up, one after the other, and exactly the addresses found are kept; each was in an answer; at most two resolutions per host, one level down |
| Iterative.ResolveNameserverHost | internal/dnsproc/iterative.go:509-534 | the addresses are those of the answer to a resolution from the root of the A records, or else of the AAAA records |
| Iterative.ResolveQuestion | internal/dnsproc/iterative.go:83-109 | a question from the root: its walk, its outcome by the fields of the last response and the account of all queries; at most 16 s ((2h + 1)^15 - 1) / (2h) of them, s bounding server lists and h delegated hosts |
| Iterative.CostClosedForm | internal/dnsproc/iterative.go:111-179 | the recurrence of query counts in closed form |
| Iterative.PositiveAnswerIsSound | internal/dnsproc/iterative.go:119-179 | a positive answer is not empty, of the asked type, from one response, and owned by the end of an alias path from the asked name whose every edge some response stated |
| Validator.ValidateSet | internal/dnsproc/validator.go:86-134 | succeeds exactly when record, signature and key lists are not empty and for every signature the clock is between its inception and expiration and some key with its tag verifies it |
| Validator.DsMatchesKsk | internal/dnsproc/validator.go:286-320 | succeeds exactly when some entry-point key hashes to some DS record |
| Validator.AnchorsMatchRootTrust | internal/dnsproc/validator.go:250-284 | succeeds exactly when an anchor hashes or equals one of the keys |
| Validator.ZoneCutPath | internal/dnsproc/validator.go:322-334 | the loop yields the cuts of the signer |
| Validator.CutsAreSuffixesIff | internal/dnsproc/validator.go:322-334 | the cuts of a signer are its label suffixes if and only if it has no escaped dot; otherwise there are more of them |
| Validator.LabelCutsAreSuffixes | internal/dnsproc/validator.go:322-334 | the label suffixes, shortest first, have the labels they should and end with the signer |
| Validator.EscapedDotAddsCut | internal/dnsproc/validator.go:322-334 | the signer a\\.b.com. has two labels, yet b.com. is one of its three cuts |
| Validator.FetchSignedRRset | internal/dnsproc/validator.go:216-248 | the records and signatures of the asked name and type in a successful reply |
| Validator.ValidateRootZone | internal/dnsproc/validator.go:159-179 | yields the root keys exactly when the fetched set is self-signed and anchored |
| Validator.ValidateZoneDelegation | internal/dnsproc/validator.go:181-214 | yields a child's keys exactly when its DS set verifies under the parent, the keys are self-signed and an entry point matches |
| Validator.EstablishTrust | internal/dnsproc/validator.go:136-155 | yields keys exactly when a whole chain from the root to the signer holds |
| Validator.BrokenChain | internal/dnsproc/validator.go:136-155 | one broken link rules out every chain for the same look-ups |
| Validator.CoveredSet | internal/dnsproc/validator.go:351-369 | the records a signature covers: same type, class and owner, signatures aside |
| Validator.Validate | internal/dnsproc/validator.go:40-83 | authenticated if and only if there are signatures and every one holds with keys that this run of look-ups establishes from an anchored root, and only if no signature in any section is outside its validity period; rejected only if one does not hold; insecure exactly without signatures |
| Validator.AuthenticIsCurrent | internal/dnsproc/validator.go:97-106 | a signature outside its validity period, anywhere in the response, rules out authenticity |
| Validator.BackedMeans | internal/dnsproc/validator.go:45-83 | a backed signature is in date and verified, over all records of its owner, class and covered type and no others, by a key established for its signer |
| Validator.ChainIsSigned | internal/dnsproc/validator.go:136-214 | along a chain the root keys, every DS set and every key set came in a successful reply, and each signature over them was in its validity period and verified by a key of the zone responsible |
| Validator.ChainIsVouchedFor | internal/dnsproc/validator.go:159-320 | and every child has an entry-point key that a DS record of the set under its parent names by tag, algorithm and digest, the root one that an anchor names or is |
| Validator.TrustRunOnce | internal/dnsproc/validator.go:53-66 | the look-ups of a run and the keys they establish are determined by the signatures |
| Validator.VerifiedIffMatched | internal/dnsproc/validator.go:45-83 | in an authenticated response a record is verified with the keys of the run if and only if some signature is for its type, class and owner |
| Validator.UnsignedRecordPasses | internal/dnsproc/validator.go:45-83 | adding a record that no signature matches changes neither the signatures nor the verdict |
| AccessLists.Walk | internal/acl/acl.go:180-216 | one visit keeps a chain of references on the stack and an order in which lists refer only backwards; an error names an undefined list or one that is on a cycle |
| AccessLists.ResolveNamedReferences | internal/acl/acl.go:180-216 | accepts exactly when every named list is defined and no references form a cycle, in whatever order the lists are visited |
| AccessLists.AcceptanceIsRight | internal/acl/acl.go:180-216 | an order in which lists refer only backwards excludes undefined names and cycles |
| AccessLists.RejectionIsRight | internal/acl/acl.go:180-216 | what a rejection reports really is there |
| AccessLists.ContainsIsAllowed | internal/acl/acl.go:394-423 | on accepted lists the matcher ends for every list and address and computes the meaning: some entry lets the address in and none before it turns everybody away |
| AccessLists.InPrefixMeansBits | internal/acl/acl.go:407-410 | an address is in a prefix if and only if the family and the leading bits agree |
| RttRegistry.SmoothIsAverage | internal/dnsproc/rtt.go:158-171 | one step is the weighted average, never wraps and stays between value and sample |
| RttRegistry.FoldIsBetween | internal/dnsproc/rtt.go:158-171 | the smoothed value stays between any bounds on the samples |
| RttRegistry.ReachedFromAbove | internal/dnsproc/rtt.go:158-171 | a constant sample is reached exactly from above, with a bound on the number of steps |
| RttRegistry.ReachedFromBelow | internal/dnsproc/rtt.go:158-171 | from below the value comes to within 4 ms and stays there |
| RttRegistry.SettlesFourBelow | internal/dnsproc/rtt.go:158-171 | from strictly below a constant sample is never reached; from four or more below the value settles at exactly four below, with a bound on the number of steps |
| RttRegistry.StepKeepsInv | internal/dnsproc/rtt.go:140-211 | every atomic step of every thread and of the sweeper keeps the invariant |
| RttRegistry.RegistryIsConsistent | internal/dnsproc/rtt.go:140-211 | under every interleaving the counter is the number of entries up to pending changes, every value is the smoothing of its samples in swap order, and every finished sample is in exactly one entry, which may have been taken out of the table since |
| RttSweep.SampleIsReachableIff | internal/dnsproc/rtt.go:140-211 | in every run an entry, with all its samples, can be looked up if and only if no sweep took it out |
| RttSweep.MappedUnlessFoundIdle | internal/dnsproc/rtt.go:201-211 | an entry can be looked up exactly unless a sweep found its stamp below the cutoff and has come to the deletion since |
| RttSweep.FinishedSampleIsLost | internal/dnsproc/rtt.go:201-211 | a run in which a recording finishes with a fresh stamp and the sweeper then takes its entry out |
| Answers.LookupInTree | internal/storage/memory.go:158-175 | all records that the tree holds at the normal form of the name and the type, no data, or not found, stated on the tree |
| Answers.FollowCnameChain | internal/dnsproc/processor.go:784-821 | the reply closes a walk through distinct aliases from the name asked for |
| Answers.FailureIsExact | internal/dnsproc/processor.go:784-821 | server failure exactly when the first eight names of the alias path are all aliases, or an alias record among them has no alias data |
| Answers.WalkIsConnected | internal/dnsproc/processor.go:784-821 | the alias records form a connected chain from the name, at most eight, no owner twice |
| Answers.ReplyIsUnique | internal/dnsproc/processor.go:784-821 | only one walk closes, so the reply is determined by the views |
| Answers.ResolveAddress | internal/dnsproc/processor.go:769-779 | a direct hit or miss, and an alias walk only for a name without the type |
| Answers.LookupZoneSoa | internal/dnsproc/processor.go:738-748 | the SOA of the shortest suffix of the name that has one |
| Answers.ShortestIsClosestIff | internal/dnsproc/processor.go:738-748 | the zone found is the closest one around the name if and only if only one suffix of the name has SOA records |
| Answers.NestedZoneGetsOuterSoa | internal/dnsproc/processor.go:738-748 | with zones b. and a.b. the name a.b. gets the SOA of b. |
| Answers.ResolveAny | internal/dnsproc/processor.go:706-736 | one record in place of all, and a name error exactly for absent names |
| Answers.ResolveQuestion | internal/dnsproc/processor.go:680-701 | for every type, name error exactly for names absent from the view, and forwarding exactly for those of them that are not domestic; every type but ANY gets the whole list that the visible tree holds, an address behind aliases the alias records followed by the whole list at the last name |
| Answers.LookShows | internal/dnsproc/processor.go:758-766 | the visible tree is the internal one exactly for internal clients and names it has, and a look-up gives the whole list there |
| Answers.AddressReplyIsWhole | internal/dnsproc/processor.go:769-821 | an address reply on the trees: each alias taken is the first CNAME record of a name without the type, and the reply is the aliases and all records at the end |
| Answers.ViewsAreSeparate | internal/dnsproc/processor.go:758-766 | a public answer depends on the public tree alone; a name in the internal tree hides all public data at it from internal clients |
| Answers.AddressReplyIsUnique | internal/dnsproc/processor.go:758-821 | views that agree on what the client may see give the same reply |
| CacheKeys.QuestionKeyIsInjective | internal/storage/cache.go:55-59 | equal keys exactly for equal normalised name, type and class, whatever characters the name has |
| CacheKeys.CacheKeyIsInjective | internal/storage/cache.go:63-69 | equal keys exactly for the same question and the same scope; a key with a subnet is never one without |
| CacheKeys.ClientScope | internal/storage/ecs.go:55-119 | two clients share a scope exactly when family and leading bits agree, as many as the settings say |
| CacheKeys.SubnetFields | internal/storage/ecs.go:38-88 | the subnet of a key by its fields: that of the query, else none if the option is off, else family, clipped length and leading bits of the client |
| CacheKeys.ForeignFamilyCollides | internal/storage/ecs.go:88-100 | the formatter gives two subnets of families 2 and 3 one key |
| ResponseCache.MinResponseTtl | internal/storage/cache.go:191-226 | the method computes the least TTL of answer and authority, reading 0 as absent |
| ResponseCache.NegativeCacheTtl | internal/storage/cache.go:199-212 | the lesser of TTL and minimum field of the first SOA |
| ResponseCache.DenialLife | internal/storage/cache.go:126-212 | a name error, or a success with nothing in the answer, is stored as long as its first SOA says, and without one not at all |
| ResponseCache.LifeIsLeastIff | internal/storage/cache.go:191-226 | the stored life of a response that is not negative is the least TTL of answer and authority if and only if it is not the case that both have records and exactly one holds a zero; then it is the least TTL of the other one |
| ResponseCache.AdjustRecordTtls | internal/storage/cache.go:228-239 | lowers every TTL in place by the elapsed seconds, exactly when all are longer |
| ResponseCache.CloneMessage | internal/storage/cache.go:169-189 | a fresh copy, record by record |
| ResponseCache.Cache.Set | internal/storage/cache.go:126-159 | stores a private copy under the key, or nothing when the life is zero |
| ResponseCache.Cache.Get | internal/storage/cache.go:73-121 | hits exactly when the entry and all its TTLs outlive the elapsed seconds, serves a fresh aged copy and leaves the stored entry alone |
| ResponseCache.HitIsLastStored | internal/storage/cache.go:73-159 | in every run a hit is the response last kept under the key, each TTL lowered by whole seconds, at least one, and over less than a second after the stored record |
| ResponseCache.HitIff | internal/storage/cache.go:73-121 | unless evicted, the response last kept under a key is a hit exactly while the whole seconds since are fewer than its life and than the TTL of each of its records |
| ResponseCache.ZeroTtlIsNeverServed | internal/storage/cache.go:228-239 | a response with a zero TTL anywhere is never served |
| ResponseCache.StoredIff | internal/storage/cache.go:126-159 | a response that is not negative is stored if and only if answer or authority has records and no zero |
| ResponseCache.OtherLife | internal/storage/cache.go:126-226 | the life of any other response is the TTL of one of its records, and a lower one stands beside a zero in its section |
| ResponseCache.StoredInVainIff | internal/storage/cache.go:191-239 | exactly which of them are stored with a zero TTL that keeps them from being served |
| DomainMatch.ReverseInPlace | internal/firewall/engine.go:99-102 | swapping from both ends reverses the labels |
| DomainMatch.ReverseDomain | internal/firewall/engine.go:93-104 | the labels of the normalised name in opposite order |
| DomainMatch.CaseDoesNotMatter | internal/firewall/engine.go:93-115 | names that differ in case alone are one name to the matchers |
| DomainMatch.ReversalIsInvolution | internal/firewall/engine.go:93-104 | reversing twice gives the name back |
| DomainMatch.CoverIsBoundaryPrefix | internal/firewall/engine.go:73-104 | a domain covers a name exactly when its reversed form is a prefix that ends at a label boundary |
| DomainMatch.CoverByLabels | internal/firewall/engine.go:73-104 | covering on the text is covering by labels except where the dot in front of the domain is escaped |
| Blocklist.BuildTree | internal/firewall/blocklist.go:26-48 | the tree holds exactly the reversed forms of the listed domains |
| Blocklist.Engine.Blocked | internal/firewall/engine.go:73-89 | blocked exactly when the longest stored prefix ends at a label boundary |
| Blocklist.BlockedIsListed | internal/firewall/engine.go:73-89 | a blocked name is listed or below a listed domain |
| Blocklist.MissedIffHidden | internal/firewall/engine.go:73-89 | a covered name is missed exactly when a listed domain is a longer prefix off a label boundary |
| Blocklist.NeighbourHidesParent | internal/firewall/engine.go:80-88 | listing a domain and its child "a" leaves the child "ads" unblocked |
| ResponsePolicy.EvaluateIffRuled | internal/rpz/engine.go:178-214 | a name is answered with an entry if and only if it is that of its exact rule or, without one, that of the wildcard above it whose key is the longest of all prefixes of the reversed name |
| ResponsePolicy.WildcardIsBelow | internal/rpz/engine.go:178-214 | a wildcard rule answers only for names strictly below its apex |
| ResponsePolicy.MissedIffHidden | internal/rpz/engine.go:198-207 | a name below an apex is missed exactly when a longer key is the name itself or off a label boundary |
| ResponsePolicy.NeighbourHidesWildcard | internal/rpz/engine.go:198-207 | beside the wildcard of its child "a", the wildcard of a domain does not answer for its child "ads" |
| ResponsePolicy.OwnWildcardHidesParent | internal/rpz/engine.go:198-207 | the wildcard of a name hides the wildcard of its parent from the name itself |
| ResponsePolicy.NormalizingTwiceDiffersIff | internal/rpz/engine.go:315-322 | normalising a name a second time, as the reversal does, changes nothing if and only if the first time leaves no final dot and no blank at an end |
| ResponsePolicy.NormalizingTwiceDiffers | internal/rpz/engine.go:315-322 | names of both kinds: an empty last label, and a label that ends in a blank |
| ResponsePolicy.CloneSnapshot | internal/rpz/engine.go:252-268 | copies both tables rule by rule into new ones |
| ResponsePolicy.RuleIsTakenIff | internal/rpz/engine.go:216-250 | a rule is taken if and only if its action is known, its target suits it, and its pattern is a name or a star label before a name |
| ResponsePolicy.TargetIsKept | internal/rpz/engine.go:280-313 | an alias rule answers with the name that was typed, up to case and a final dot, an address rule with the address in its printed form, any other with nothing |
| ResponsePolicy.AddedRuleIsLoaded | internal/rpz/engine.go:107-131 | a rule that is taken is found under its normalised name or reversed apex afterwards, and no other rule changes |
| ResponsePolicy.BuildTables | internal/rpz/engine.go:134-159 | fills new tables with all rules or stops at the first bad one |
| ResponsePolicy.PolicyEngine.AddPolicy | internal/rpz/engine.go:107-131 | a good rule is added to a copy that is published; the tables a reader has loaded stay as they are |
| ResponsePolicy.PolicyEngine.ReplacePolicies | internal/rpz/engine.go:134-167 | all rules are replaced at once or, if one is bad, none; the tables a reader has loaded stay as they are |
| ResponsePolicy.StepLosesNothing | internal/rpz/engine.go:107-131 | every step keeps the published snapshot equal to the replay of all effects |
| ResponsePolicy.NoRuleIsLost | internal/rpz/engine.go:107-159 | under every interleaving of adding threads and replacements the published snapshot is the replay of all effects so far, so no rule is lost |
| TextForms.SplitQuotedTxt | internal/storage/records.go:480-519 | reads the quoted strings one after the other, unescaped |
| TextForms.ParseTxtValue | internal/storage/records.go:452-478 | a quoted list or one bare chunk, all chunks valid |
| Grammars.ReadsIffSpelled | internal/storage/records.go:480-519 | a text is read as these chunks if and only if it is them as quoted strings with blanks around, quotes and backslashes behind a backslash and any other character with or without one |
| Grammars.TxtValueIff | internal/storage/records.go:452-478 | a value is accepted as these chunks if and only if they are valid, at least one, and the value spells them or is the only one and begins without a quote |
| TextForms.TxtRoundTrip | internal/storage/records.go:627-650 | printed chunks are read back exactly if there is a chunk and all are valid, whatever quotes, backslashes and blanks they hold |
| TextForms.TxtPrintedFormIsStable | internal/storage/records.go:452-478 | what was read is read again from its printed form |
| TextForms.OwnerRoundTrip | internal/storage/records.go:545-561 | qualifying the relative form of a name gives the name back exactly for the restorable names |
| TextForms.OwnerForms | internal/storage/mutations.go:298-310 | the origin is written "@" and a name below it as its front part, and both are read back |
| TextForms.ForeignForm | internal/storage/mutations.go:298-310 | a name outside the zone is written in full, and read back |
| Ttl.ParseBindTtl | internal/storage/ttl.go:12-72 | the loop accepts the well-formed texts and sums modulo 2^64 |
| Grammars.TtlMeans | internal/storage/ttl.go:12-72 | the meaning of a TTL: a number, or numbers of at most 32 bits with one of five units each, whose sum is from 1 to 2^32 - 1; other texts mean nothing |
| Ttl.ParserIsExactIff | internal/storage/ttl.go:12-72 | right exactly unless the sum reaches 2^64 and its remainder looks like a TTL |
| Ttl.FewComponentsAreExact | internal/storage/ttl.go:28-57 | right for every text of at most 7101 components |
| Ttl.OverflowIsAccepted | internal/storage/ttl.go:28-64 | a text of 7102 components that means more than 2^64 seconds is accepted as 579584 seconds, so the bound is tight |
| Transfer.ZoneRecords | internal/storage/memory.go:227-245 | every record of the zone as often as the tree holds it, sorted |
| Transfer.SortedThroughout | internal/storage/memory.go:233-243 | no record comes before an earlier one, however far apart |
| Transfer.TextLessIff | internal/storage/memory.go:233-243 | of two texts the lesser one is found at the first character that differs |
| Transfer.FindSoaRecord | internal/dnsproc/xfr.go:239-255 | the first SOA of the origin, or else the first SOA |
| Transfer.FramesConserve | internal/dnsproc/xfr.go:138-184 | the frames concatenate to SOA, the others in order, SOA; 2 + ceil(n/100) frames of 1 to 100 records (section 2.2 of RFC 5936) |
| Transfer.StreamZone | internal/dnsproc/xfr.go:138-184 | what is written is the longest prefix of the frames before the first failing write |
| Transfer.AttemptedIsMaximal | internal/dnsproc/xfr.go:160-184 | nothing before the first failing write is missing |
| Transfer.TransferCarriesZone | internal/dnsproc/xfr.go:138-184 | between the SOAs every record of the zone that does not duplicate the SOA is carried as often as the zone holds it, and nothing else |
| LogStream.LinesOfConcat | internal/logger/stream_writer.go:27-47 | cutting a stream changes neither its lines nor its rest |
| LogStream.OneLine | internal/logger/stream_writer.go:27-47 | one line with its terminator is one line, an empty one none, and text without a terminator is kept |
| LogStream.Ring.Append | internal/logger/ring.go:28-37 | the ring holds the latest lines, oldest evicted |
| LogStream.Ring.Snapshot | internal/logger/ring.go:40-57 | the last min(n, capacity) lines in order |
| LogStream.StreamWriter.Write | internal/logger/stream_writer.go:27-47 | after every write the lines dispatched are the lines of the whole stream and the buffer is its rest |
| LogStream.WriteAll | internal/logger/stream_writer.go:27-47 | for every way of cutting a stream into writes the feed has all its lines, the ring the latest and the buffer the rest |

## Left out

- ZoneTree.CloneTree: record lists and records are values, so that the copy shares no record with the original is not visible; no modelled operation writes a stored record in place.
- Store.Memory.CreateZone: writing the zone file and reading it back appear as one flag, with the SOA record that the file holds; the paths of zone files are not modelled.
- Store.Memory.DeleteZone: deleting the file is one flag.
- Iterative.Resolve: a negative answer to a shortened name is final in the code, so nothing is claimed about negative answers beyond where they came from.
- Rounds.EveryQueryDisclosesSuffix: speaks about the labels of targets that are fully qualified without empty labels; any other name is no domain name.
- Validator.Validate: the clock is read once; the resolver may answer each look-up differently, so a rejection is tied to some run of look-ups.
- LabelSuffixes.MembershipByLabels: names whose last dot is escaped are not fully qualified and no names of messages or zones.
- UpdateStandard.DataIsIgnored: data of length zero is recognised by the empty form the library unpacks it to; record data has no length of its own here, so a DS record of zeros counts as empty.
- SignedGaps.EveryOrderIsPossible: any order that the language allows for walking a map; how likely each one is does not appear.
- UpdateStandard.FollowsIffAgrees: a rejection is a rejection, whatever its code; the WKS exception of section 3.4.2.2 of RFC 2136 does not appear, since that type has no data form here.
- SignatureFields.EverySignatureIsMade: the fields are those that the signing library is given; what it writes into them itself is not modelled.
- Transfer.StreamZone: starts after the transfer was allowed and the zone found.
- TextForms.TxtRoundTrip: texts are sequences of code points, so chunks that are not valid UTF-8 do not occur.
- ResponseCache.Cache.Get: elapsed seconds are the exact quotient of nanoseconds, without the rounding of the floating-point conversion.
- Records and slices are values.
- Absent (nil) records and trees other than in cloning.
- Lower-casing beyond ASCII, and data printed in the generic notation of RFC 3597 or as CAA.
- Record identifiers, editing by identifier, TTL hints and the text of zone files.
- View selection by client, the other policy calls of the access engine, and parsing of its configuration.
- Sorting, prefix trees, caches and atomic maps of the libraries; they appear as rearrangement, maps with a longest-prefix search, a map that may lose entries, and atomic steps.
- Cryptography, key generation and key storage; signing and verifying are arbitrary functions.
- Wire format, compression, truncation, TSIG, cookies, listeners, upstream exchange, notification and metrics.
- Prerequisites are read before the mutation lock is taken; requests are modelled one after the other.
- Reloading of zone files, which runs outside the mutation lock.
