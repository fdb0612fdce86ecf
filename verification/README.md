# AOCR: a verified model of its stateful cores

AOCR is an authenticated container registry: a token server, a pull-through mirror of public
registries, and a webhook service that keeps an image table and reaps old images. This Dafny project
models the parts of it that make promises about whole runs, and proves those promises for every input,
interleaving and fault the model admits.

| file | what it models |
|---|---|
| `Warm.dfy` | the mirror's warm path: bounded worker pools walking a manifest graph, over a registry that checks references |
| `BlobTee.dfy` | the mirror's blob path: the copying and the uploading goroutine joined by a synchronous pipe |
| `Routing.dfy` | repository routing, written once in Go and once in TypeScript |
| `ProofCache.dfy`, `WrappedUpstream.dfy` | the proof-of-access cache (a class), and the requests that share it and interleave at each probe |
| `Scopes.dfy`, `ClusterPat.dfy`, `Base32.dfy` | scope parsing and merging, the cluster token policy, the key id |
| `TagRetention.dfy`, `HookEvents.dfy` | retention suffixes and provenance; the webhook and what it keeps true of the table |
| `SqlLike.dfy`, `Selection.dfy`, `Reaper.dfy` | LIKE, the reaper's query and its policy, the delete loop and repeated runs |
| `ImportApi.dfy` | importing a mirrored image by mounting its blobs |
| `Options.dfy`, `Strings.dfy`, `Lists.dfy` | optional values, Go and JavaScript string operations, first-seen lists |

Networks, clocks, the upstream registries and failing database writes are nondeterministic: they appear
as choices, replies or times given to the model. Digests and credential identities are opaque and taken
as injective. Methods with loops are proved equal to specification functions, and the promises are
lemmas about those functions.

Where the code does less than its comments or a reader may expect, the model follows the code, one lemma
exhibits the failure, and another says exactly when the promise holds:

- A proof can outlive its TTL: a run of ordinary requests, each for a new repository, keeps the first
  proof in use for ever (`WrappedUpstream.OldProofIsServed`). No proof does so exactly when every
  repository of the entry was recorded no earlier than the entry's last renewal
  (`ProofCache.FreshExactly`).
- The idle clock is not the most recent timestamp but the first one present: an image can be taken at the
  moment of its last push (`HookEvents.FreshPushIsTaken`, `Selection.IdleClockIsMostRecent`).
- The newest plain tag keeps its row, not its manifest, when an older tag names the same digest
  (`Reaper.NewestLosesItsManifest`, `Reaper.KeptManifestSurvives`).
- An index may reach its PUT with a child missing (`Warm.SwallowedChildFailure`); then a warm of that
  child came back without an applied PUT, because something went wrong in or below it
  (`Warm.IndexPutIsComplete`). The registry's own check is what keeps the store complete.
- A blob request below a `manifests` segment is read as a manifest request (`Routing.BlobTail`).
- A failed import can have written its manifest when the reply to the PUT was lost
  (`ImportApi.LostReplyWrites`, `ImportApi.FailureChangesNoManifest`).
- An import reads below `mirror/<host>`, but the mirror stores below `mirror/<slug>`: no image that the
  mirror stored is imported under its upstream's real host name (`ImportApi.HostIsNotMirrored`); the paths
  meet exactly when the request gives the slug for the host (`ImportApi.SourceIsMirrored`).
- Auth and the reaper do not agree on the standard modules for every setting (`ClusterPat.Lockstep` says
  for which they do): blanks or slashes leave nothing protected, a wildcard or backslash protects
  repositories that auth treats as others (`ClusterPat.WildcardProtectsNeighbour`), and a comma makes
  several entries of what auth reads as one.
- A delete event whose database write fails can leave a row naming a removed manifest until a later push
  or reap replaces or drops it (`HookEvents.LostDeleteLeavesDeadRow`); that is the only write whose loss
  can do this, and `HookEvents.LostWrite` says when it does.

## Model

| member | source | states |
|---|---|---|
| Warm.StepSound | mirror/proxy.go:174-304 | every atomic action of the worker pools, whatever the network answers, keeps: at most four busy workers per pool, one worker per descriptor with a digest, no PUT after an error, store growth only by served content, and every stored manifest complete |
| Warm.SystemStepSound | mirror/proxy.go:174-304 | the same over several concurrent requests of one repository, cancellations and blob uploads of others |
| Warm.WarmSafety | mirror/proxy.go:174-304 | in every reachable state, under faults and cancellation: pools hold at most four, an image is at its PUT only with its config and all layers stored, and a call that was not cancelled returns only when no goroutine below it is left |
| Warm.FrameInFields | mirror/proxy.go:174-262 | in every run, in the fields of the manifests: each frame warms a parsed manifest that upstream serves, with at most 4 goroutines at work, and at the PUT of an image its config, if it names one, and every named layer are stored |
| Warm.BeforeReference | mirror/proxy.go:213-231 | before a named reference the loop goes on exactly while fewer than 4 goroutines are at work, and gives up only under a cancelled context; an empty digest is passed over at once |
| Warm.SkippedExactly | mirror/proxy.go:174-200 | over every run a warm comes back without having tried its PUT exactly when one of its fetches or uploads failed |
| Warm.ProbeSkips | mirror/proxy.go:233-241 | a worker that finds its own kind of item stored leaves at once, and a probe that fails or finds nothing leads to the fetch |
| Warm.LostReplies | mirror/writer.go:40-124 | a lost reply hides what happened: a manifest may be stored and tagged though its PUT reports a failure, a blob stored though its upload counts as failed, and a child whose fetch failed is not warmed |
| Warm.PutNames | mirror/proxy.go:202-207 | a PUT answered with success stores the manifest and names the requested reference after it; one that did not take effect changes nothing |
| Warm.RequestsAreArrivals | mirror/proxy.go:120-208 | over every run the warms under way or finished are exactly those asked for by name and digest whose manifest upstream serves and that parses |
| Warm.UploadsLand | mirror/proxy.go:456-498 | a blob of positive length uploaded by another request stays in the store to the end of every run |
| Warm.PutGuard | mirror/proxy.go:174-208 | at its PUT an image has each referenced blob stored, an index each child stored or its warm come back |
| Warm.RunExplained | mirror/proxy.go:174-208 | over every run, a frame that reports an applied PUT is stored, and every other one that came back has such a culprit in it or below |
| Warm.IndexPutIsComplete | mirror/proxy.go:174-262 | in every run, an index at its PUT has all children stored if each child warm that came back reports an applied PUT; a missing child's warms report none, and each holds a frame, its own or one below, that was cancelled, had a failed fetch, upload or PUT call, or whose manifest has an empty reference |
| Warm.SwallowedChildFailure | mirror/proxy.go:171-208 | a concrete run in which an index reaches its PUT without its child, and only the registry's check refuses it |
| Warm.StoredIsTransitivelyComplete | mirror/writer.go:40-61 | over every run, everything reachable from a stored manifest is stored |
| Warm.StoreInFields | mirror/proxy.go:174-208 | over every run a stored manifest parses; an image has its config, if it names one, and all its layers stored, an index all its children; what a run adds was served upstream, blobs with a name and a positive length |
| Warm.RunKeepsTags | mirror/writer.go:40-61 | over every run each tag names a stored manifest |
| Warm.StoredWasCacheable | mirror/proxy.go:174-304 | even under faults only manifests whose whole graph is in the store or obtainable upstream are ever stored |
| Warm.ClosedByRefs | mirror/proxy.go:185-192 | the closure that defines cacheable, stated on config, layers and children, is the closure under the references that the workers loop over |
| Warm.CleanRunCompletes | mirror/proxy.go:174-304 | a request that meets no fault or cancellation itself, whatever the others meet, and can go no further has stored and tagged its manifest and reports it if and only if it was cacheable: parsable, non-empty digests, positive blob sizes all the way down |
| Warm.NoPutRefused | mirror/proxy.go:174-304 | for such a request of a cacheable manifest the reference-checking registry refuses no PUT |
| Warm.Progress | mirror/proxy.go:210-304 | in every unfinished state of a frame some fault-free action is enabled: the pools do not deadlock |
| Warm.StepDecreases | mirror/proxy.go:174-304 | every action, faulty or not, decreases a measure over an acyclic manifest graph |
| Warm.WarmTerminates | mirror/proxy.go:174-304 | no request takes more actions than its measure, whatever the others do in between |
| BlobTee.TeeDelivers | mirror/proxy.go:456-498 | for every chunking and interleaving: cache and client hold prefixes of the body, the client all of it once the handler ends without a copy error, and the digest is committed only over exactly the whole body |
| BlobTee.UploaderCannotHurtClient | mirror/proxy.go:456-498 | if neither the upstream read nor the client write fails, the client gets exactly the body, whatever the uploader does |
| BlobTee.HealthyRunCaches | mirror/writer.go:63-124 | if nothing fails the blob is also committed with exactly the body |
| BlobTee.CacheBrokenExactly | mirror/proxy.go:480-498 | over every run, until the copying itself fails, the cache copy is given up exactly when a byte that the client has or is about to get was kept from it |
| BlobTee.ClientHasWhatItTook | mirror/proxy.go:491-498 | over every run the client has exactly as many bytes as its writes took, short writes included |
| BlobTee.LostCommitStands | mirror/writer.go:63-124 | a commit whose reply is lost stands, over the whole body, though the upload reports an error |
| BlobTee.FailedUploadNeverCommits | mirror/writer.go:63-124 | after a refused POST or a PATCH that broke off nothing is ever committed, whatever follows |
| BlobTee.NotCommittedBefore | mirror/writer.go:63-124 | nothing is committed before the upload has been accepted and streamed |
| BlobTee.NeverStuck | mirror/proxy.go:456-478 | no state before the end of the handler is stuck, even when nothing fails |
| BlobTee.EveryOutcomeIsPossible | mirror/proxy.go:456-498 | in every reachable state each read, request or stream under way may fail, the client may take any part of a chunk and the uploader read any part of what is offered, and the PATCH may succeed exactly when the writer holds the whole body |
| BlobTee.StepDecreases | mirror/proxy.go:456-498 | every action of either goroutine decreases a measure |
| BlobTee.TeeTerminates | mirror/proxy.go:456-498 | no run takes more actions than the measure of its first state |
| Routing.SplitDistributionTail | mirror/router.go:130-145 | the marker loop computes TailOf: manifests before blobs, the last occurrence of each |
| Routing.ManifestTail | mirror/router.go:130-145 | a manifest request splits back into its repository path and reference for every path |
| Routing.BlobTail | mirror/router.go:130-145 | a blob request splits back exactly when its repository path has no manifests segment after the first; otherwise it is read as a manifest of the path before that segment |
| Routing.ResolveManifest | mirror/router.go:71-128 | a manifest URL resolves to the owner of its repository path, or to that owner's error |
| Routing.ResolveBlob | mirror/router.go:71-128 | a blob URL resolves, in the owner of the path so read, to that blob or that manifest, or to the owner's error |
| Routing.NoReference | mirror/router.go:130-145 | a path that ends right after its marker is no registry request |
| Routing.ResolveSkipsSlash | mirror/router.go:71-81 | a second slash after /v2/ changes nothing |
| Routing.NotARequest | mirror/router.go:71-90 | nothing after /v2/, another prefix, or a repository that starts with a slash is refused as no registry request |
| Routing.OwnerBySegments | mirror/router.go:88-128 | which upstream, repository and storage path Go gives each repository path, and which error: one Docker segment is completed with library/, ghcr, gcr and quay need two segments, k8s one |
| Routing.RouteBySegments | auth/src/upstreamAuth/route.ts:38-59 | which host and repository the TypeScript prefix table gives, in terms of path segments |
| Routing.PrefixNamesHost | auth/src/upstreamAuth/route.ts:38-52 | each prefix stands for its own host, ghcr.io, gcr.io, quay.io or registry.k8s.io, and what follows is the repository |
| Routing.RoutedHostIsKnown | auth/src/upstreamAuth/route.ts:38-59 | no other host than these four and docker.io is ever named |
| Routing.RoutersAgree | mirror/router.go:71-128 | where Go and TypeScript both accept a path they name the same upstream, and the same repository unless it is a single-segment Docker name; and exactly which paths only one of them accepts |
| Routing.StorageNames | mirror/upstream.go:48-151 | every repository that a path resolves to has two segments, but for those of k8s |
| Routing.StoredUnder | mirror/router.go:88-128 | each such repository of each upstream is stored, below mirror and the slug |
| Routing.StorageInjective | mirror/upstream.go:48-151 | two paths share a storage path only when they are the same repository of the same upstream |
| ProofCache.ProofCache.constructor | auth/src/upstreamAuth/proofCache.ts:64-68 | a new cache is empty |
| ProofCache.ProofCache.Get | auth/src/upstreamAuth/proofCache.ts:79-100 | the Map after get is the specified list, and the result is the entry's bearer and repositories exactly on a hit |
| ProofCache.ProofCache.Record | auth/src/upstreamAuth/proofCache.ts:108-130 | the Map after record is the specified list, with the expiry renewed and the least recent evicted beyond capacity |
| ProofCache.ProofCache.RecordScope | auth/src/upstreamAuth/proofCache.ts:137-141 | recordScope widens in place without promoting or renewing |
| ProofCache.ProofCache.Invalidate | auth/src/upstreamAuth/proofCache.ts:147-149 | invalidate removes the identity's entry and nothing else |
| ProofCache.ProofCache.Evict | auth/src/upstreamAuth/proofCache.ts:158-163 | evict removes one entry and keeps the order of the others |
| ProofCache.ProofCache.EnforceCapacity | auth/src/upstreamAuth/proofCache.ts:165-172 | the loop drops entries from the least recent end until the capacity holds |
| ProofCache.RunFaithful | auth/src/upstreamAuth/proofCache.ts:79-172 | after every operation sequence the Map holds exactly what the history of operations dictates, in order of last hit or record, and at most its capacity |
| ProofCache.GetInWords | auth/src/upstreamAuth/proofCache.ts:79-100 | an expired entry goes, a lookup of another repository changes nothing, a hit moves the entry behind the others |
| ProofCache.RecordKnownInWords | auth/src/upstreamAuth/proofCache.ts:108-118 | the entry of a known identity moves behind the others with one repository more, the new bearer and a new expiry, the time of its first proof unchanged |
| ProofCache.RecordNewInWords | auth/src/upstreamAuth/proofCache.ts:119-130 | the entry of a new identity comes last, and exactly the surplus at the front is evicted, in order |
| ProofCache.HitExactly | auth/src/upstreamAuth/proofCache.ts:79-100 | get returns a proof if and only if the repository was recorded or widened since the last drop and the last record of the identity is less than the TTL ago; the bearer is that record's |
| ProofCache.EvictsLeastRecent | auth/src/upstreamAuth/proofCache.ts:165-172 | a record that displaces an identity finds the cache full, and displaces the one touched longest ago |
| ProofCache.StaleProofNeverExpires | auth/src/upstreamAuth/proofCache.ts:108-118 | a repository proved once at time 0 still hits after any time, if other repositories are recorded often enough |
| ProofCache.FreshAfterRecord | auth/src/upstreamAuth/proofCache.ts:108-118 | if until now no proof outlived its own TTL, a later record keeps that true exactly when the entry holds no other repository |
| ProofCache.FreshExactly | auth/src/upstreamAuth/proofCache.ts:79-149 | over every run of all four operations, no proof of an identity outlives its own record if and only if every repository of its entry was recorded no earlier than the entry's last renewal |
| WrappedUpstream.NextKeepsInv | auth/src/upstreamAuth/strategy.ts:121-165 | every uninterrupted piece of any request keeps the accounting of log, probes and evidence |
| WrappedUpstream.ProofSoundness | auth/src/upstreamAuth/strategy.ts:121-165 | over all interleavings, an accepted request has for each name a route to the envelope's host and, during the call, a probe of its own or a cache hit, each resting on a successful probe of the same identity, repository and host with no drop in between |
| WrappedUpstream.BadScopeSendsNoProbe | auth/src/upstreamAuth/strategy.ts:121-140 | an empty scope or one name that does not route to the envelope's host refuses the request without any probe |
| WrappedUpstream.MatchingMeansNaming | auth/src/upstreamAuth/route.ts:63-65 | a route matches the envelope exactly when the two hosts have one length and at each position the same character or two cases of one ASCII letter, the Kelvin sign being a k |
| WrappedUpstream.AcceptedHost | auth/src/upstreamAuth/strategy.ts:131-140 | over every run each name of an accepted request routes to a known host that the envelope names, and the envelope names no other known host |
| WrappedUpstream.OtherHostSendsNoProbe | auth/src/upstreamAuth/strategy.ts:131-140 | over every run a request with one name that routes nowhere or to a host that the envelope does not name is refused, and no probe is ever sent for it |
| WrappedUpstream.RefusalEffects | auth/src/upstreamAuth/strategy.ts:149-162 | unauthorized removes exactly the identity's entry, the others keeping content and order; unreachable and unsupported change nothing |
| WrappedUpstream.OldProofIsServed | auth/src/upstreamAuth/strategy.ts:121-165 | after sequential requests for distinct repositories, each sent within a TTL of the one before, the first repository's proof is accepted without a probe however long ago it was made |
| Scopes.KeyUnambiguous | auth/src/scope.ts:69-70 | the string key of the merging map never merges two resources |
| Scopes.AddActions | auth/src/scope.ts:72-76 | the inner loop yields the order-preserving union without duplicates |
| Scopes.MergeOne | auth/src/scope.ts:64-78 | one round of the loop keeps the Map and its key order in step with the scopes seen |
| Scopes.MergeScopes | auth/src/scope.ts:60-81 | the loop over the Map computes the declarative normal form: an entry for each distinct resource with the distinct actions asked for it |
| Scopes.NormalExactly | auth/src/scope.ts:55-81 | one entry for each requested (type, name) and no other, whose actions are exactly those requested for it, none twice |
| Scopes.NormalFirstSeen | auth/src/scope.ts:55-81 | a prefix of the request gives a prefix of the resources and of each resource's actions: order is first-seen |
| Scopes.ParsePrint | auth/src/scope.ts:33-53 | a printed entry parses back to itself, colons in its name included |
| Scopes.ParseScopeExactly | auth/src/scope.ts:33-53 | type up to the first colon, actions from the last, the name between, whatever colons it holds; an empty type or name is malformed |
| Scopes.TooFewColons | auth/src/scope.ts:33-38 | a value with fewer than two colons is malformed |
| Scopes.SpaceCodes | auth/src/scope.ts:29 | the white space that separates scopes is the 25 code units of section 12 of ECMA-262 |
| Scopes.AllScopesAreRead | auth/src/scope.ts:25-31 | every text between white space of one value is read, in order, and so is every further value; what is not text is dropped |
| Scopes.RoundTrip | auth/src/scope.ts:25-81 | for every input, printing the parsed scopes and parsing again is the identity |
| Scopes.ReposExactly | auth/src/upstreamAuth/strategy.ts:56-61 | the extracted names are exactly the requested ones, each once |
| ClusterPat.BuildAccess | auth/src/createApp.ts:161-187 | the loop grants each resource its decision in order, and refuses the whole request exactly when one resource is refused |
| ClusterPat.ClusterGrants | auth/src/clusterPat.ts:84-127 | a cluster token is granted a resource exactly in its own, the mirror's or the standard namespace; every action in its own, only pull elsewhere |
| ClusterPat.ClusterAccess | auth/src/createApp.ts:161-187 | over the whole access list every action but pull is on a repository of the cluster's own namespace |
| ClusterPat.OtherAccess | auth/src/createApp.ts:161-187 | a caller without a cluster token is granted exactly what it asked for |
| ClusterPat.NamelessAccess | auth/src/createApp.ts:166-170 | a cluster token without a cluster id is granted nothing but the empty list |
| ClusterPat.OwnNamespacesDisjoint | auth/src/clusterPat.ts:106-109 | two distinct valid cluster ids share no name |
| ClusterPat.Lockstep | hooks/src/util/imageRetention.ts:71-80 | for every setting without an override: what auth treats as standard modules is exactly what the reaper protects if and only if the setting is one entry without wildcards or backslashes that is absent, empty or not only blanks and slashes |
| ClusterPat.TrimDrops | auth/src/clusterPat.ts:32 | trimming takes exactly the white space at both ends |
| ClusterPat.StripDrops | auth/src/clusterPat.ts:32 | stripping takes exactly the slashes at the end |
| ClusterPat.StandardInWords | auth/src/clusterPat.ts:29-34 | a clean entry names the standard modules itself; an absent, empty or blank setting, or one of slashes alone, means wasm/std |
| ClusterPat.OverrideProtects | hooks/src/util/imageRetention.ts:71-80 | an override replaces the setting, and each of its clean comma-separated entries is protected once, in order |
| ClusterPat.BlankOverride | hooks/src/util/imageRetention.ts:73-74 | a blank override is no override |
| ClusterPat.StandardIsProtected | hooks/src/util/imageRetention.ts:269-273 | with the wildcards % and _ in the setting every standard module is still protected |
| ClusterPat.WildcardProtectsNeighbour | hooks/src/util/imageRetention.ts:269-273 | for every usable one-entry setting with a percent sign, underscore or backslash anywhere, the reaper protects a repository that auth does not treat as standard |
| ClusterPat.SeveralEntriesDiffer | auth/src/clusterPat.ts:31-34 | for every setting with an inner comma or newline there is a repository on which the two differ |
| Base32.PackBits | auth/src/serverHelpers.ts:24-40 | the loop over a 32-bit accumulator that is never masked yields the big-endian five-bit grouping of section 6 of RFC 4648, unpadded, for byte strings of any length |
| Base32.EncodingIsTheNumber | auth/src/serverHelpers.ts:22-40 | read in base 32 by the standard alphabet, the encoding is the number that the bytes write in base 256, doubled once for each bit that fills up the last symbol |
| Base32.KeyIdInjective | auth/src/serverHelpers.ts:24-41 | byte strings of one length have the same key id only when they are equal |
| Base32.KeyIdShape | auth/src/serverHelpers.ts:22-41 | thirty bytes give 48 symbols in twelve groups of four that spell the encoding |
| TagRetention.CaptureExactly | hooks/src/util/tagRetention.ts:31 | the suffix pattern has at most one decomposition of any tag, and it is the one captured |
| TagRetention.CaptureInWords | hooks/src/util/tagRetention.ts:31 | the pattern captures base and suffix exactly from base, --ttl- or --idle- and suffix, with no line terminator in the base and only small letters and digits, at least one, in the suffix |
| TagRetention.SuffixRoundTrip | hooks/src/util/tagRetention.ts:116-148 | every one-line base with every supported suffix parses back to the mode, seconds and expiry, and to the same duration in hours or days |
| TagRetention.SuffixNeeded | hooks/src/util/tagRetention.ts:116-148 | a tag is ttl or idle if and only if it is such a base with such a suffix |
| TagRetention.SuffixMeans | hooks/src/util/tagRetention.ts:1-29 | the twelve supported suffixes, and that each lasts as many hours, days or months of 30 days as its numeral says, twelve months 365 days |
| TagRetention.ProvenanceOf | hooks/src/util/tagRetention.ts:62-95 | what a path is by its first segment: a snapshot of the cluster that its second segment names if that is a cluster label, a mirror of all that follows, else pushed |
| TagRetention.NoNamespace | hooks/src/util/tagRetention.ts:62-70 | a path of one segment belongs to no namespace |
| TagRetention.ClusterLabels | hooks/src/util/tagRetention.ts:33-38 | 1 to 64 letters, digits, dashes and underscores are a cluster label, UUIDs among them, and nothing longer, empty or with a separator is |
| TagRetention.MirrorStorageIsMirror | hooks/src/util/tagRetention.ts:62-88 | every storage path of the mirror is recognised as mirrored, with upstream reference slug/repository exactly when no segment is empty |
| TagRetention.ProvenanceKeepsPath | hooks/src/util/tagRetention.ts:62-95 | organization/name is the path again for every path without empty segments |
| SqlLike.LikePrefix | hooks/src/util/imageRetention.ts:164 | a wildcard-free prefix followed by % matches exactly the texts that start with it |
| SqlLike.LikeParts | hooks/src/util/imageRetention.ts:164 | a percent sign matches every text, an underscore any one character, an escape the character it escapes, every other character itself |
| SqlLike.LikeConcat | hooks/src/util/imageRetention.ts:164 | a pattern followed by another matches exactly the texts that split into a match of each, unless the first ends in an escape |
| SqlLike.LikeBelow | hooks/src/util/imageRetention.ts:269-273 | any pattern followed by /% matches exactly a matching text, a slash and anything |
| Selection.ParseMirrorRetention | hooks/src/util/imageRetention.ts:34-61 | the loop keeps exactly the upstreams with a finite positive number, rounded down |
| Selection.RowNumberOfBeaten | hooks/src/util/imageRetention.ts:172-188 | a keep-latest row has row number above one exactly when a newer such row of its repository exists, even when the window runs over a scope |
| Selection.SelectionExact | hooks/src/util/imageRetention.ts:149-276 | the windowed UNION ALL returns each row at most once and exactly when the policy calls it stale, protected repositories never; a scoped query is the unscoped one restricted to its repositories |
| Selection.TtlSelected | hooks/src/util/imageRetention.ts:189-205 | an unprotected ttl row, a mirrored one too, is selected exactly when its expiry has come |
| Selection.IdleSelected | hooks/src/util/imageRetention.ts:206-225 | an unprotected idle row that is no mirror is selected exactly when its seconds have passed since its last pull, or its last push if it was never pulled |
| Selection.MirrorSelected | hooks/src/util/imageRetention.ts:155-171 | an unprotected mirror row without ttl is selected exactly when, since that same time, its own seconds have passed if it has any, else those of the only longest override that its reference starts like, else the default |
| Selection.ScopeSelects | hooks/src/util/imageRetention.ts:102-116 | a scoped query selects what the unscoped one selects in its repositories, and an empty scope is no scope |
| Selection.ProtectedNotSelected | hooks/src/util/imageRetention.ts:262-273 | no row of organization/name is selected while a protected prefix is that path or matches a path above it |
| Selection.LongestOverride | hooks/src/util/imageRetention.ts:155-171 | a longest override that the upstream reference starts like decides a mirror's retention, the only longest one if there is one, and without wildcards the longest prefix |
| Selection.NoOverride | hooks/src/util/imageRetention.ts:155-171 | without a reference or an override it starts like, the default does |
| Selection.ProtectedExactly | hooks/src/util/imageRetention.ts:262-273 | for every list of prefixes, wildcards included, a prefix protects itself and what stands below a path that it matches; without wildcards not its textual neighbours |
| Selection.KeepsExactlyTheNewest | hooks/src/util/imageRetention.ts:172-188 | of the plain, non-mirror tags of an unprotected repository exactly one is kept: the last pushed, of those the last created, of those the greatest tag |
| Selection.DeletingCreatesNoCandidates | hooks/src/util/imageRetention.ts:149-311 | deleting any selected rows leaves the selection of the others as it was |
| Selection.IdleClockIsMostRecent | hooks/src/util/imageRetention.ts:206-225 | the reaper respects the window since the most recent timestamp at every moment if and only if the COALESCE clock is at or after push and creation |
| Selection.ListAgreesWithReaper | auth/src/imageList.ts:37-42 | for ttl and idle rows of the reachable shape the listed expiry is at or before now exactly when the reaper selects the row |
| Selection.DrainExact | hooks/src/util/imageRetention.ts:274-311 | rounds of 500 leave exactly the rows the policy keeps if and only if there were at least ceil(n/500), and then nothing is selected any more |
| Reaper.Store.Reap | hooks/src/util/imageRetention.ts:280-311 | the delete loop maps table and registry as specified for every sequence of replies, and returns the number selected |
| Reaper.ReapOutcome | hooks/src/util/imageRetention.ts:280-306 | with replies that are honest about 202, 204 and 404, exactly the cleared rows leave the table, no manifest disappears that was not aimed at, and no row leaves before its manifest is gone |
| Reaper.ReapInReplies | hooks/src/util/imageRetention.ts:280-306 | in the replies, truthful or not: a row leaves exactly when a visit of it had a recorded digest and the DELETE answered 202, 204 or 404, or had none and HEAD answered 404, or had none and HEAD gave a digest whose DELETE was so answered; exactly the manifests that a visit asked for and the registry removed are gone |
| Reaper.AimIsAsked | hooks/src/util/imageRetention.ts:280-299 | a visit aims at the recorded digest, or at the one in the answer to HEAD, in the row's repository |
| Reaper.FailureKeepsRow | hooks/src/util/imageRetention.ts:298-306 | a row stays unchanged if its visit had a faulty HEAD, an answer without a digest, or a DELETE not answered 202, 204 or 404 |
| Reaper.ScopedReapStaysInScope | hooks/src/util/imageRetention.ts:102-116 | a reap triggered by a push leaves rows and manifests of other repositories |
| Reaper.ReaperDrains | hooks/src/util/imageRetention.ts:149-311 | at a fixed clock with every delete succeeding the loop itself needs exactly ceil(n/500) runs to leave the rows the policy keeps |
| Reaper.KeptManifestSurvives | hooks/src/util/imageRetention.ts:287-299 | a full drain takes a manifest, a kept row's included, if and only if a visit aimed at it, by a row's digest or by the answer to HEAD; with all digests recorded, if and only if a stale row of its repository names the same digest |
| Reaper.NewestLosesItsManifest | hooks/src/util/imageRetention.ts:287-299 | two tags of one digest: the run keeps the newest row and removes its manifest |
| HookEvents.Handler.HandlePush | hooks/src/controllers/hookEvents.ts:77-167 | a push upserts its row as specified, keeping an absent digest and the last pull |
| HookEvents.Handler.HandleDelete | hooks/src/controllers/hookEvents.ts:168-194 | a delete removes exactly the repository's rows that name the digest |
| HookEvents.Handler.HandlePull | hooks/src/controllers/hookEvents.ts:195-227 | a tagged manifest pull touches its row as specified |
| HookEvents.Handler.ProcessRegistryEvents | hooks/src/controllers/hookEvents.ts:62-249 | the two loops apply the events in order and then reap each repository pushed to once, in first-seen order |
| HookEvents.PushInColumns | hooks/src/controllers/hookEvents.ts:77-167 | column by column: a tagged push changes only its own row, renews its last push, retention and provenance, and keeps creation time, last pull and an absent digest or reference |
| HookEvents.DeleteInColumns | hooks/src/controllers/hookEvents.ts:168-194 | a delete with a digest removes exactly the rows of its repository that name it |
| HookEvents.PullInColumns | hooks/src/controllers/hookEvents.ts:195-227 | a tagged manifest pull sets the last pull exactly when there is none or it is more than 3600000 ms old, and changes no other column or row |
| HookEvents.IgnoredEvents | hooks/src/controllers/hookEvents.ts:62-110 | other actions, a repository outside any namespace, a push or pull without tag, a delete without digest, a pull of something else and a failed write change nothing |
| HookEvents.ManifestMediaTypes | hooks/src/controllers/hookEvents.ts:28-42 | a media type counts as a manifest exactly when it contains manifest or image.index |
| HookEvents.ScheduledExactly | hooks/src/controllers/hookEvents.ts:72-158 | the repositories reaped are exactly those with a push that reached the database |
| HookEvents.ScheduledFirstSeen | hooks/src/controllers/hookEvents.ts:72-158 | what an earlier part of a batch schedules stands first |
| HookEvents.UnpushedStay | hooks/src/controllers/hookEvents.ts:230-246 | with each reap selected by the query scoped to its scheduled repository, a repository that no push of the batch reached keeps the rows and manifests the events left it |
| HookEvents.RowNamesLastPush | hooks/src/controllers/hookEvents.ts:74-194 | from an empty table, a row names a digest exactly when the last push of its tag that carried one carried that digest and no later event removed it |
| HookEvents.RunKeepsConsistent | hooks/src/controllers/hookEvents.ts:74-228 | over every interleaving of pushes, deletes, FIFO deliveries (repeated ones too), failed writes and reaps, each row's digest is stored or its removal is queued at every moment, if and only if no delete is lost that a row still needed |
| HookEvents.LostWrite | hooks/src/controllers/hookEvents.ts:156-227 | losing the oldest event to a failed write keeps table and registry consistent if and only if every row it was to remove is accounted for without it; the loss of a push or pull always does |
| HookEvents.DrainedRowsAreStored | hooks/src/controllers/hookEvents.ts:74-228 | from an empty table, if every delete is written and pushes and pulls may fail, an empty queue means that every row names a stored manifest |
| HookEvents.ReaperVisitRuns | hooks/src/util/imageRetention.ts:280-306 | each visit of the delete loop is a sequence of those steps |
| HookEvents.LostDeleteLeavesDeadRow | hooks/src/controllers/hookEvents.ts:181-190 | a run from an empty table in which one failing delete leaves a row naming a removed manifest with an empty queue |
| HookEvents.RunKeepsRows | hooks/src/controllers/hookEvents.ts:111-157 | a row's retention columns are always those of its tag at its last push, its provenance and reference those of its repository |
| HookEvents.ReachableRows | auth/src/imageList.ts:37-42 | every reachable row has an expiry exactly when ttl and a duration exactly when ttl or idle, and unprotected ttl and idle rows are listed as expired exactly when the reaper selects them |
| HookEvents.ReplayKeepsDebounced | hooks/src/controllers/hookEvents.ts:17-26 | with a monotone clock last_pulled_at is never ahead of the true last pull and at most one hour behind |
| HookEvents.ReachableIdleClock | hooks/src/util/imageRetention.ts:206-225 | for a row of such a run the reaper's clock is the most recent timestamp exactly when no push is later than the recorded pull |
| HookEvents.FreshPushIsTaken | hooks/src/util/imageRetention.ts:206-225 | an idle image pushed, pulled and pushed again when its window ends is selected at the moment of that push |
| HookEvents.DebouncedIdle | hooks/src/controllers/hookEvents.ts:17-26 | so an unprotected idle row is never selected while its last pull is younger than its window less an hour, and always once it is as old as the window |
| ImportApi.CollectBlobDigests | hooks/src/util/mountFromRepo.ts:177-190 | the loops collect config, layers and sub-manifests, each digest once in first-seen order |
| ImportApi.DigestsExactly | hooks/src/util/mountFromRepo.ts:177-190 | the collected digests are exactly the non-empty ones the manifest refers to |
| ImportApi.DigestsInOrder | hooks/src/util/mountFromRepo.ts:177-190 | the config comes first, and config and layers before the sub-manifests |
| ImportApi.MountBlob | hooks/src/util/mountFromRepo.ts:67-113 | the outcome of a mount for every status, with the HEAD after a 404 |
| ImportApi.OutcomeInReplies | hooks/src/util/mountFromRepo.ts:84-113 | a mount counts as done exactly when it is answered 201, or 404 with a HEAD answered 200; 202, any other status and no answer are failures |
| ImportApi.MountAllBlobs | hooks/src/util/mountFromRepo.ts:119-135 | the loop attempts the digests in order up to the first failure, and says all mounted exactly when none failed |
| ImportApi.ImportImage | hooks/src/controllers/ImportAPI.ts:139-239 | the import changes the registry and answers as specified for every reply |
| ImportApi.SourceIsMirrored | hooks/src/controllers/ImportAPI.ts:142 | for every request, the source repository is one that the mirror's router stores under if and only if the host given is an upstream's slug and the repository has two segments or the slug is k8s |
| ImportApi.HostIsNotMirrored | hooks/src/controllers/ImportAPI.ts:142 | so a host with a dot, as each upstream's real one is, never names a repository of the mirror |
| ImportApi.EarlyAnswers | hooks/src/controllers/ImportAPI.ts:147-214 | which answer each early reply gives, and that none of them changes the registry |
| ImportApi.ImportInReplies | hooks/src/controllers/ImportAPI.ts:215-239 | of an importable source exactly the blobs of the mounts that were sent and took are added; one mount not answered 201 or 404 then 200 stops the import with no PUT; otherwise the PUT decides the answer, and manifest and tag are written exactly when it took |
| ImportApi.TargetInWords | hooks/src/controllers/ImportAPI.ts:139-146 | the target is cluster, the cluster id, _imported, the host and the repository, segment by segment, and its tag the source tag followed by the suffix |
| ImportApi.PutsOnlyWhenComplete | hooks/src/controllers/ImportAPI.ts:215-233 | with replies that are honest about 201, and 404 followed by 200, the manifest is written only when every digest it refers to is in the destination |
| ImportApi.ImportKeepsComplete | hooks/src/controllers/ImportAPI.ts:147-239 | the destination stays reference-complete whatever the registry replies, and blobs, manifests and tags of other repositories stay as they were |
| ImportApi.FailureChangesNoManifest | hooks/src/controllers/ImportAPI.ts:221-238 | a failed import leaves manifests and tags alone, except exactly when its PUT took effect and the reply was lost or not 201 |
| ImportApi.LostReplyWrites | hooks/src/util/mountFromRepo.ts:146-169 | for every importable request there are truthful replies with which the import fails and its manifest and tag are stored |
| ImportApi.SuccessSettles | hooks/src/controllers/ImportAPI.ts:147-250 | a success, either kind, leaves the target tag naming the digest, the manifest stored and every digest it refers to beside it |
| ImportApi.RetryChangesNothing | hooks/src/controllers/ImportAPI.ts:147-164 | after one success every retry changes nothing, and answers already_present without any mutating request once the HEAD answers |
| ImportApi.ImportedTagIsIdle | hooks/src/controllers/ImportAPI.ts:142-145 | with the suffix --idle-90d the webhook gives the imported tag an idle row of 90 times 24 hours among the cluster's snapshots |

## Left out

- The HTTP servers and clients, authentication of the internal endpoints, JSON, media-type negotiation, metrics and logging: the model starts from parsed manifests, events and scopes.
- AES-GCM, RSA, JWT signing, SHA-256 and the timing-safe comparison: digests and identities are opaque and injective, and a body served for a digest is the body of that digest.
- The upstream probe adapters: a probe answers ok, unauthorized, unreachable or unsupported.
- `handleManifest` up to the warm, serving from the writer, blob garbage collection and deletions in the writer during a warm.
- The Go mirror and `validateWrappedUpstream` are state machines over their atomic steps rather than methods: a goroutine leaving its pool and its `wg.Done` are one step, and so is each registry request with its effect.
- Lower-casing of host names covers the ASCII letters and the Kelvin sign, the only characters whose lower case is an ASCII character; no other text is lower-cased to a known host.
- The `validate` patterns of an import are assumed as `ImportApi.WellFormed` where a property needs them; lower-casing and its error answers are not modelled, nor are other writers of the destination during an import.
- `TokenCache`, pagination, cluster token parsing, profiles, `NewRegistry` and configuration parsing other than the two namespace settings and the mirror retention map.
- The `cluster_id`, `raw_retention_suffix` and `source_sandbox_id` columns, the Redis cache, and the zeroing of evicted bearers.
- The clocks of the application and of the database are one clock; SQL statements are atomic, and a row that is deleted and inserted again counts as the same row.
- Own properties of JavaScript's object prototype are not keys of the suffix tables.
- ClusterPat.Lockstep: is about `AOCR_WASM_STD_NAMESPACE` alone, because `AOCR_RETENTION_PROTECTED_NAMESPACES` is a different setting that only the reaper reads.
- Selection.LongestOverride: leaves open which of several longest wildcard overrides decides, because the query's `LIMIT 1` does.
- Reaper.KeptManifestSurvives: takes the answers to HEAD as given, because the model of the reaper holds manifests and not the registry's tags.
- Reaper.ReaperDrains: counts the rows the loop deletes; the delete events its own requests raise are not delivered in between.
- ProofCache.FreshAfterRecord: takes the new record as later than the earlier ones, because two records at the same instant expire together.
