# Verified models of the module SDK

Dafny models of the parts of the SDK that keep state or branch on what a host answers, with proofs of what
those parts promise. `dafny verify dfyconfig.toml` checks the whole project.

## What is modelled

- **Typed settings** (`SettingsTree`, `SettingsMessage`, `SettingsField`, `SettingsLaws`, `SettingsOneofs`,
  `SettingsRuns`; from `settings/field.go`).
  Messages are heap objects with scalar fields, sub-message references and unknown bytes; `Lookup`, `Get`, `Set`,
  `Clear`, `ApplyDefault` and `newField` are methods that walk and mutate them. Each is proved to leave the value
  tree that a specification function gives, and the laws are proved about those functions: a rejected `Set` undoes
  itself exactly when no oneof sibling was displaced, `Clear` undoes `Set` exactly when nothing was there or displaced
  before, and any sequence of operations on a new message, through oneof members too, leaves the one document its map
  of leaf paths determines, as long as no rejected `Set` meets a leaf it would displace. That sequence theorem
  (`Replay`) is stated on the heap, and assumes of the schema only that the members of a oneof name each other.
- **The module credential cache** (`CredentialCache`, `CredentialSharing`; from `moduleauthority/client.go`,
  `authority.go`, `broker.go`). The class `Client` has the cached token and expiry as fields; `CallAsModule` is the
  call, forget, refresh, retry protocol with whatever other callers did to the cache in between. The same turns are
  steps of a system of any number of callers, a mutex held across the mint, a clock and a broker and host that
  answer anything; the theorems hold for every sequence of steps.
- **The authority answer cache** (`AuthorityAnswers`, `AnswerCache`, `AnswerSharing`; from
  `moduleauthority/verifier_sources.go`). Five questions, their cache keys, what each source makes of an answer, the
  map under its mutex, and every interleaving of asks whose load and store are separate critical sections.
- **Effect outcomes** (`HostErrors`, `Operations`; from `datasource/errors.go`, `datasource/operations.go`). What
  `Invoke` and `Lookup` send, and what they claim about the effect for every response and every failure.
- **The JSON error body** (`ConnectBody`; from `internal/connectresponse/connectresponse.go`). The lazily opened
  reader over `bufio.Reader`, over a source that returns its bytes in any chunks, with errors anywhere.
- **Broker failures** (`BrokerErrors`; from `moduleauthority/broker_errors.go`). The pruned search of an error tree.
- **Settings catalogs** (`CatalogText`, `CatalogValidate`, `CatalogRender`; from `settings/catalog`). The three
  renderers, `%q` and `%d`, the regular expressions and the import check, and what rendered text determines.

## Where the code and its comments differ

- `moduleauthority/verifier_sources.go:82-84` says only positive answers are cached. The code stores every decoded
  answer before a source looks at its state, so a refusal is served again from memory whenever anything is
  cached: `RefusalsAreCachedIff`.
- `moduleauthority/verifier_sources.go:76-79` says a cache delays a revocation by at most its bound. The lifetime starts
  when the answer is stored, not when the host decided (`verifier_sources.go:253`), so the delay is the bound and the
  time until the store: `AgedAnswersIff` says exactly how old an answer can be. A slow older answer can also replace a
  newer one and be served: `OutdatedServedIff`, `OutdatedStoreIff`, and `OrderedStoresServeNewest` for what excludes it.
- `moduleauthority/client.go:356-357` says concurrent callers share one refresh. They do while the issued token outlives
  the refresh skew; of a shorter-lived one each caller mints its own: `ConcurrentMintsIff`.
- A seal key joins two identifiers with a NUL. When an identifier itself holds one, two questions can share a key,
  and a host answer that was refused by the question that fetched it can be accepted by the other:
  `AcceptsAnotherIff` gives the exact condition. No answer serves both.
- `settings/field.go:331-341` admits members of a real oneof. Creating such a parent clears its siblings and the
  roll-back does not restore them: `RejectedSetRestores` is an if-and-only-if, `RejectedSetLosesOneofSibling` an
  instance of the failure.
- `internal/connectresponse/connectresponse.go:89` drops the peek's error, and `bufio.Reader` has already cleared
  it. An error the source gets past among the first three bytes is lost, and a byte order mark cut in two by it is
  delivered: `DeliveredAsIntendedIff`, `BytesAsIntendedIff`, `FailuresReportedIff`, `EarlyErrorIsLost`. An error the
  source repeats, as HTTP bodies and gzip readers do, is reported.

## Model

| member | source | states |
|---|---|---|
| SettingsLaws.MaterializeExactly | settings/field.go:120-130 | walking down clears the oneof siblings of the first absent parent, adds exactly that parent and all after it, each empty, and changes nothing else |
| SettingsTree.UndoOne | settings/field.go:133-142 | one backward step removes a created parent, which is then empty, and stops at the first that was there before |
| SettingsLaws.PruneRemovesIff | settings/field.go:168-174 | pruning removes a sub-message if and only if everything at or below it is the bare way down to the cleared field: no scalar, no unknown bytes, no other branch; what stays is unchanged |
| SettingsMessage.Message.IsEmptyAt | settings/field.go:370-380 | a message on the heap is empty exactly when the document has no scalar, no unknown byte and no sub-message there |
| SettingsMessage.Message.Mutable | settings/field.go:120-130 | returns the sub-message, creating it only if absent; the new document differs by that message and the displaced oneof siblings |
| SettingsMessage.Message.Put | settings/field.go:132-145 | storing a leaf changes that leaf and its oneof siblings in the document and nothing else |
| SettingsMessage.EveryValueIsFoundIff | settings/field.go:360-368 | every value of its kind that is set is found again if and only if the field has presence, which is why a field without it is refused |
| SettingsField.Lookup | settings/field.go:80-101 | reports the leaf of the document, absence when any parent is absent, and the two root errors |
| SettingsField.Get | settings/field.go:48-58 | the stored leaf, or the default when it is absent |
| SettingsField.Enter | settings/field.go:122-129 | one parent read or created: the recorded step says which, and the document gains it only if it was absent |
| SettingsField.Descend | settings/field.go:120-130 | the recorded steps say of each parent whether this call created it, and the document gains exactly those |
| SettingsField.Undo | settings/field.go:134-141 | one parent taken back if this call created it; otherwise what is left is the old document less the displaced oneof siblings |
| SettingsField.RollBack | settings/field.go:133-142 | removes every parent this call created; what remains is the old document less the displaced oneof siblings |
| SettingsField.Set | settings/field.go:110-146 | refused for an enum number the field does not define, exactly then with a right root; the whole new document for acceptance, refusal and root errors; an accepted value, zero too, is found by the next lookup; the heap stays a valid tree |
| SettingsField.Trace | settings/field.go:155-166 | finds the leaf's message exactly when all parents are present |
| SettingsField.PruneParents | settings/field.go:168-174 | the backward loop leaves the document pruned from the leaf's message upward |
| SettingsField.Erase | settings/field.go:155-174 | the walk, the removal and the pruning together leave the cleared document |
| SettingsField.Clear | settings/field.go:150-176 | the whole new document: the leaf gone and emptied parents pruned, or nothing changed |
| SettingsField.ApplyDefault | settings/field.go:63-75 | reports true exactly when the leaf was absent, and only then stores the default |
| SettingsField.NewField | settings/field.go:299-358 | built exactly for names that resolve to a chain of singular messages ending in a singular scalar with presence, of the kind of the default, defining its number; the trimmed path is those names joined with dots; each refusal names where reading stopped and why |
| SettingsField.TrimSpaceIff | settings/field.go:312 | the path kept is the one text that leaves only spaces before and after it in the given path and has none at its own ends |
| SettingsField.PathTyped | settings/field.go:310-345 | along a built field every present message has the type the next segment belongs to, which keeps each access legal |
| SettingsLaws.RejectedSetRestores | settings/field.go:110-146 | a rejected set leaves the document as it was if and only if its first created parent displaced no oneof sibling |
| SettingsLaws.RejectedSetOutsideOneof | settings/field.go:110-146 | outside real oneofs a rejected set always leaves the document as it was |
| SettingsOneofs.RejectedSetLosesOneofSibling | settings/field.go:331-341 | a schema, a field its constructor admits, a document of that schema with a present oneof sibling and an undefined enum number whose rejection loses the sibling |
| SettingsLaws.LookupIsMapLookup | settings/field.go:80-101 | lookup is map lookup at the leaf's path |
| SettingsOneofs.SetIsMapUpdate | settings/field.go:110-146 | an accepted set, through oneof members or not, is the map update at the leaf's path less the leaves of the oneof siblings of what it first stores; no other leaf changes |
| SettingsLaws.ClearIsMapRemoval | settings/field.go:150-176 | clear is a map removal at the leaf's path |
| SettingsLaws.ClearLocal | settings/field.go:150-176 | clear removes messages only on its own path, never the root and never one with unknown bytes |
| SettingsOneofs.ClearAfterSetIsClear | settings/field.go:110-176 | with all parents present, clear after set equals clear alone on the document without the leaf's oneof siblings, so clear alone when it has none |
| SettingsOneofs.ClearAfterSetPrunes | settings/field.go:110-176 | with a parent absent, clear after set equals pruning the old document, less the displaced oneof siblings, from its deepest present parent |
| SettingsOneofs.ClearUndoesSet | settings/field.go:110-176 | clear after set restores the document if and only if no oneof sibling was displaced, the leaf was absent and the deepest present parent was the root or not empty |
| SettingsLaws.CanonicalIsFromMap | settings/field.go:150-176 | a document without empty sub-messages and unknown bytes is determined by its leaves |
| SettingsOneofs.SetAsPlain | settings/field.go:110-146 | a set is one outside oneofs, made after the oneof siblings of what it first stores are gone |
| SettingsRuns.SetKeepsExclusive | settings/field.go:110-146 | a set never leaves two members of one oneof present |
| SettingsRuns.SetKeepsDefined | settings/field.go:248-252 | a set keeps every enum field of the document at a number its type defines |
| SettingsRuns.RejectedSetOnMapIff | settings/field.go:110-146 | in a document without empty sub-messages a rejected set changes nothing if and only if no leaf lies below a oneof sibling of a parent on its path |
| SettingsRuns.OperationIsOnMap | settings/field.go:63-176 | set, clear and apply-default act on the leaves as update (less the leaves of the path's oneof siblings), removal and insert-if-absent; they keep every sub-message non-empty and each oneof single; a rejected set is assumed to meet no leaf it would displace, which is the exact condition |
| SettingsRuns.Replay | settings/field.go:63-176 | after any sequence of operations on a new message, oneof members included, the heap holds exactly the document of the resulting map, with every enum field at a number it defines, provided no rejected set meets a leaf it would displace |
| CredentialCache.MintIsGood | moduleauthority/broker.go:193-205 | a minted token is sealed, not empty and expires after the clock reading that judged it |
| CredentialCache.Client.MintModuleWorkContext | moduleauthority/client.go:466-486 | a mint succeeds exactly for a sealed token with a readable expiry after the clock reading, and returns both; 401, 403, 412 and 503 each come out as their own refusal and no other status does; neither cache field changes |
| CredentialCache.Client.ModuleWorkContextLocked | moduleauthority/client.go:440-451 | hands out the cached token while fresh; otherwise token and expiry are replaced together by one mint, and a failed mint changes neither |
| CredentialCache.Client.ForgetModuleWorkContext | moduleauthority/client.go:491-496 | drops the cached token and its expiry only if it is the rejected one |
| CredentialCache.Client.CallAsModule | moduleauthority/authority.go:85-121 | at most two requests, the second only after Unauthenticated; a repeated token was minted again after the rejection; the cache afterwards |
| CredentialSharing.TurnIsTake | moduleauthority/client.go:440-451 | the step system's turns under the mutex are the class's method |
| CredentialSharing.StepKeepsInv | moduleauthority/authority.go:97-120 | every step of every caller keeps the invariant |
| CredentialSharing.RunInv | moduleauthority/authority.go:97-120 | the invariant holds after every sequence of steps |
| CredentialSharing.HandoutsAreGood | moduleauthority/client.go:440-451 | in every reachable state each token handed out came from one mint with its expiry, and expires after a clock reading of that same call |
| CredentialSharing.RetriesOnceWithAnotherToken | moduleauthority/authority.go:97-120 | a call hands out at most two tokens; the second follows a rejection of the first and differs from it or was minted by this call after the rejection |
| CredentialSharing.CacheHoldsLatestMint | moduleauthority/client.go:440-496 | the cache is empty or holds token and expiry of the latest mint; only rejected tokens were ever dropped |
| CredentialSharing.MintsAreBounded | moduleauthority/authority.go:97-120 | mints number at most one, plus tokens dropped, plus checks that found the token inside the refresh skew |
| CredentialSharing.RefreshesAreShared | moduleauthority/client.go:440-451 | a token is minted again only after the latest one was refused and dropped, or when the check read a clock within the skew of its expiry |
| CredentialSharing.ConcurrentMintsIff | moduleauthority/client.go:356-366 | callers at one instant mint a token each, with nothing dropped, if and only if the issued token does not outlive the skew |
| CredentialSharing.RefreshesPerIssue | moduleauthority/client.go:491-496 | refreshes of a token number at most the mints that issued it, one fewer while it is cached, whatever the broker issues |
| CredentialSharing.MintsPerRefusedToken | moduleauthority/authority.go:97-120 | with distinct minted tokens, the drops counted are distinct rejected tokens |
| CredentialSharing.OneRefreshPerToken | moduleauthority/client.go:491-496 | with distinct minted tokens, any number of callers rejected with one token cause at most one successful refresh of it |
| CredentialSharing.ReissuedTokenRefreshesTwice | moduleauthority/client.go:491-496 | a broker that issues the same token again can make it be refreshed twice, so the distinctness is needed |
| AuthorityAnswers.ReadIsAttributed | moduleauthority/verifier_sources.go:263-426 | a source accepts, or reports absence from, only an answer that names what was asked |
| AuthorityAnswers.ReadIsOwed | moduleauthority/verifier_sources.go:279-426 | a verdict comes exactly from a present answer on the question's own arm, never for a grant, and repeats its revision, epoch, principal, installation, incarnation and revocation; each absence comes exactly from an absent answer of its arm |
| AuthorityAnswers.KeyIds | moduleauthority/verifier_sources.go:263-410 | keys of different kinds never meet, and only seal keys can be shared by two questions |
| AuthorityAnswers.KeySharedIff | moduleauthority/verifier_sources.go:263-270 | a question shares its key with another if and only if a NUL in its identifiers can be read as the separator |
| AuthorityAnswers.NoAnswerServesTwo | moduleauthority/verifier_sources.go:263-283 | no answer passes the attribution check of two questions with one key |
| AnswerCache.LoadFits | moduleauthority/verifier_sources.go:223-235 | a load, whatever it deletes, keeps the cache within its bound |
| AnswerCache.StoreFits | moduleauthority/verifier_sources.go:237-254 | a store keeps the cache within its bound, and empty when caching is off |
| AnswerCache.NewSources | moduleauthority/verifier_sources.go:159-188 | built exactly for a client, a readable capability with an owner and a lifetime of at most two seconds; zeros become the defaults; the cache starts empty |
| AnswerCache.WorkContextSources.Load | moduleauthority/verifier_sources.go:223-235 | an unexpired entry is returned, an expired one deleted; the whole new map |
| AnswerCache.WorkContextSources.Store | moduleauthority/verifier_sources.go:237-254 | the answer is kept until the store's time plus the lifetime; a full cache is dropped first; the whole new map |
| AnswerCache.WorkContextSources.Ask | moduleauthority/verifier_sources.go:203-221 | a hit makes no call; an RPC error or a nil answer stores nothing; any other answer is stored into whatever the others left |
| AnswerCache.WorkContextSources.Resolve | moduleauthority/verifier_sources.go:263-426 | each source returns what the answer it was given, from memory or its call, owes the question, field by field; an empty identifier, and nothing else, is refused without a call; the whole new map |
| AnswerSharing.RunInv | moduleauthority/verifier_sources.go:203-254 | in every interleaving each entry is backed by a store of that answer under that key, and the cache is within its bound |
| AnswerSharing.AnswersAreFresh | moduleauthority/verifier_sources.go:223-254 | an answer served from memory is the latest one stored under its key, less than the configured bound, at most two seconds, before it was read; its age since the host decided exceeds that only by the delay of its store |
| AnswerSharing.AgedAnswersIff | moduleauthority/verifier_sources.go:76-79 | for every question and answer: with stores at most a given delay after the host decided, that answer can be served at a given age if and only if answers are cached and the age is below bound plus delay; so the documented bound holds exactly without delay |
| AnswerSharing.OrderedStoresServeNewest | moduleauthority/verifier_sources.go:237-254 | while answers are stored under each key in the order the host decided them, no outdated one is served |
| AnswerSharing.OutdatedStoreIff | moduleauthority/verifier_sources.go:211-219 | storing an answer makes the next ask of its question get an outdated one if and only if a newer one was stored under its key before |
| AnswerSharing.OutdatedServedIff | moduleauthority/verifier_sources.go:203-254 | for every question and every two answers: the older can be served although the newer had been stored for that question if and only if answers are cached at all |
| AnswerSharing.CacheIsBounded | moduleauthority/verifier_sources.go:237-254 | the cache never exceeds its bound and every stored answer is one its own ask returned |
| AnswerSharing.AcceptedAnswerOrigin | moduleauthority/verifier_sources.go:203-283 | an accepted answer was given by the host to this question, or to one sharing its key that had to refuse it |
| AnswerSharing.UncollidingAnswersAreOwn | moduleauthority/verifier_sources.go:203-283 | unless identifiers hold a splitting NUL, every answer returned was given by the host to this very question |
| AnswerSharing.AcceptsAnotherIff | moduleauthority/verifier_sources.go:263-283 | some interleaving makes a source accept an answer the host never gave to its question if and only if its identifiers hold a splitting NUL and answers are cached at all |
| AnswerSharing.RefusalsAreCachedIff | moduleauthority/verifier_sources.go:203-221 | a refusal the host answers can be served again from memory if and only if the lifetime and the entry bound are positive |
| HostErrors.ScanDetails | datasource/errors.go:183-202 | the scan keeps the last detail of each of three kinds |
| HostErrors.ScanIgnoresOrderAndNoise | datasource/errors.go:183-202 | the scan depends only on the details of each kind, in their own order |
| HostErrors.InsertedNoiseIsIgnored | datasource/errors.go:183-202 | a nil, undecodable or unknown detail inserted anywhere changes nothing |
| HostErrors.SwappedKindsAreIgnored | datasource/errors.go:183-202 | neighbouring details of different kinds may be swapped |
| HostErrors.NoiseDoesNotChangeClass | datasource/errors.go:165-258 | the classification is unchanged by what the scan ignores |
| HostErrors.ProviderStatusIff | datasource/errors.go:239-246 | the status is not zero if and only if the metadata is three ASCII digits for 100 to 599, and then is that number |
| HostErrors.EffectErrorsIff | datasource/errors.go:165-258 | an unknown outcome is reported exactly for effect calls whose failure came not off the wire or says so by code or reason, an unread encoding exactly for management calls, a removed declaration exactly by the host's reason, as committed only on its exact word |
| HostErrors.CodesIff | datasource/errors.go:203-225 | NotPermitted, UnknownOperation, InputError and RateLimited each come exactly for their own code (and reason); the pointer is the first field of the last BadRequest; the reset is the host's readable time, otherwise now plus the last valid delay that is not negative |
| HostErrors.PreconditionsIff | datasource/errors.go:226-251 | which failed preconditions are a reused effect, a provider refusal with its status, a removed declaration with its receipt status, an unknown outcome or an operation refusal, by the reason of the last ErrorInfo, which an operation refusal carries |
| HostErrors.RawIff | datasource/errors.go:165-258 | exactly the failures that are left as they came |
| Operations.ValidateEffectID | datasource/operations.go:248-262 | accepts exactly 1 to 128 bytes of UTF-8 without control bytes and surrounding spaces |
| Operations.HeaderKeepsIff | datasource/operations.go:248-262 | a printable ID reads the same from the trimmed header (section 5.5 of RFC 9110) if and only if no space surrounds it |
| Operations.FieldValueIs | datasource/operations.go:248-262 | the recipient reads a header value less exactly the spaces and tabs around it (section 5.5 of RFC 9110) |
| Operations.CommittedOutput | datasource/operations.go:139-150 | the output is returned exactly when both outputs are JSON objects; the receipt changes only in its output, kept exactly when it is one; the error carries that receipt |
| Operations.Invoke | datasource/operations.go:23-80 | no result exactly when nothing was sent, and then which error; otherwise one request whose field, trimmed header, receipt and error receipt carry one ID; committed only on evidence; the receipt returned has the host's status, commit time, provider status and output, field by field; the error's receipt is the returned one |
| Operations.Lookup | datasource/operations.go:91-135 | an invalid ID or dead context sends nothing, with which error; otherwise one request; committed only on evidence; the receipt returned has the host's status, commit time, provider status and output, field by field; the error's receipt is the returned one |
| Operations.ReceiptsTell | datasource/operations.go:225-246 | an accepted wire receipt, committed or unknown, is returned with its provider status and its commit time, none for the empty text; any other answer leaves both blank |
| Operations.FailureStatus | datasource/operations.go:56-68 | the status a failure leaves in the receipt: committed exactly on the host's word for a removed declaration, not attempted exactly for a Lookup the host does not find |
| Operations.CommittedIffEvidence | datasource/operations.go:225-246 | committed is reported if and only if a matching committed receipt arrived, or a wire refusal for a removed declaration said committed |
| Operations.OutcomeUnknownIff | datasource/operations.go:56-68 | the outcome is reported unknown if and only if the failure leaves it open or the response holds no committed receipt for the ID, for Lookup unless its call expired; every failure not decoded off the wire, an unread encoding too, does so and names the ID |
| Operations.NoErrorIff | datasource/operations.go:69-80 | there is no error if and only if the receipt is committed and both outputs are JSON objects |
| Operations.ReceiptsAgree | datasource/operations.go:56-80 | the returned receipt names the sent ID, and every receipt an error carries equals it |
| Operations.InvokeAndLookupAgreeIff | datasource/operations.go:91-135 | the two agree on receipt and error if and only if the host responded or the failure is not off the wire, is Unavailable, or has the reason of an unknown outcome or a removed declaration |
| ConnectBody.BufReader.Fill | internal/connectresponse/connectresponse.go:88-89 | one fill returns data, an error, or gives up after a hundred empty reads, without changing what is to be delivered |
| ConnectBody.BufReader.Peek3 | internal/connectresponse/connectresponse.go:88-92 | the opening peek for three bytes, whatever the chunks, and what is pending after it |
| ConnectBody.BufReader.Read | internal/connectresponse/connectresponse.go:97 | moves bytes and errors from the front of what is pending to the caller, for every buffer size including zero |
| ConnectBody.ErrorBody.Read | internal/connectresponse/connectresponse.go:68-98 | for every sequence of read sizes the bytes and errors delivered are a prefix of the expected stream, all of it once the source's last error (io.EOF or one it repeats) is reported; each non-empty read makes progress; a gzip failure is reported by every read |
| ConnectBody.OpenData | internal/connectresponse/connectresponse.go:88-92 | how the source chunks its bytes does not change what the peek makes of them |
| ConnectBody.OpeningIff | internal/connectresponse/connectresponse.go:88-92 | the opening stalls exactly when a hundred empty reads in a row, and is cut short exactly when otherwise an error, comes before the third byte |
| ConnectBody.DeliveredAsIntendedIff | internal/connectresponse/connectresponse.go:88-92 | exactly one leading byte order mark is removed (section 8.1 of RFC 8259) and nothing else changed if and only if no error the source gets past, and no hundred empty reads before a mark is complete, cuts the first three bytes short |
| ConnectBody.BytesAsIntendedIff | internal/connectresponse/connectresponse.go:88-92 | the bytes alone are the source's less one leading mark if and only if the opening is not cut short before a mark |
| ConnectBody.FailuresReportedIff | internal/connectresponse/connectresponse.go:88-92 | every error the source gets past is reported if and only if none cuts the first three bytes short |
| ConnectBody.EarlyErrorIsLost | internal/connectresponse/connectresponse.go:88-92 | an error inside a byte order mark is never reported and the mark is delivered |
| BrokerErrors.BrokerTimeoutIff | moduleauthority/broker_errors.go:120-141 | the pruned search answers true if and only if some error of the tree is a net.Error reporting a timeout |
| BrokerErrors.FirstNetFinds | moduleauthority/broker_errors.go:121-124 | stopping where errors.As finds no net.Error loses nothing |
| BrokerErrors.CategoryIff | moduleauthority/broker_errors.go:96-118 | each category holds if and only if the tree has its mark and none of a higher precedence |
| CatalogText.QuoteUnique | settings/catalog/render.go:70-71 | quoted text can be read off the front of a text in only one way, for all strings |
| CatalogText.EscapedIs | settings/catalog/render.go:70-71 | the spelling %q gives every rune, stray bytes included |
| CatalogText.QuoteBodyJoins | settings/catalog/render.go:70-71 | quoted text spells its runes one by one in their order |
| CatalogText.NumberUnique | settings/catalog/render.go:70-71 | so can a decimal number before a character that is no digit or sign |
| CatalogText.ItoaIs | settings/catalog/render.go:70-71 | a number is printed as the decimal digits that spell it, without a leading zero |
| CatalogValidate.MatchStaysInAlphabet | settings/catalog/validate.go:20-24 | what a pattern matches is written in its character classes |
| CatalogValidate.NamespaceIff | settings/catalog/validate.go:21 | accepted if and only if lower-case words and digits between single separators, begun by a letter |
| CatalogValidate.MessageIff | settings/catalog/validate.go:22 | accepted if and only if two or more dotted names, each begun by a letter, with no underscore in the first |
| CatalogValidate.FieldNameIff | settings/catalog/validate.go:23 | accepted if and only if lower-case letters, digits and underscores begun by a letter |
| CatalogValidate.SafeRelativeImportIff | settings/catalog/validate.go:71-79 | an import is accepted if and only if it has no backslash, no stretch between slashes is empty, "." or "..", and it ends in ".proto" |
| CatalogValidate.Validate | settings/catalog/validate.go:35-66 | accepts exactly lists of contributions without any of the five problems, each spelt out without the patterns, and otherwise reports the first contribution with one and its first problem, in the order of the checks |
| CatalogRender.RenderGo | settings/catalog/render.go:66-74 | the builder loop writes, literal by literal, the catalog text about which the laws below are proved |
| CatalogRender.RenderTypeScript | settings/catalog/render.go:78-86 | the builder loop writes, literal by literal, the catalog text about which the laws below are proved |
| CatalogRender.RenderProto | settings/catalog/render.go:49-61 | the two builder loops write, literal by literal, the proto text about which the laws below are proved |
| CatalogRender.GoCatalogIff | settings/catalog/render.go:66-74 | Go catalogs are equal if and only if the lists agree, in order, on namespace, name, number and message; validation is not needed |
| CatalogRender.TypeScriptCatalogIff | settings/catalog/render.go:78-86 | the same for TypeScript |
| CatalogRender.ProtoUnique | settings/catalog/render.go:49-61 | for validated lists equal protos have equal imports, messages, field names and numbers |
| CatalogRender.UnvalidatedProtosCollide | settings/catalog/render.go:49-61 | without validation two different contributions can render to one proto |

## Left out

- Settings messages reached by two paths: the heap model keeps every document a tree, as the protobuf runtime does.
- Repeated and map fields, extensions and the bytes of a default: a field never passes through them.
- `MustString`, `MustBool`, `MustEnum`: they panic where `newField` returns an error and otherwise only convert types.
- `settings/json.go`: the round trip is protojson's.
- Library readers are parameters: sealed tokens, RFC 3339 times, JSON objects, UTF-8 validity, the text of a fresh UUID, `strconv.IsPrint`. Of the token reader only that it refuses the empty string is used.
- CredentialCache.Client.CallAsModule: `others` stands for whatever the other callers do between releasing the mutex and taking it again; the interleavings themselves are in `CredentialSharing`.
- AnswerCache.WorkContextSources.Ask: `others` stands for the map as other asks left it while the RPC was out; the interleavings themselves are in `AnswerSharing`.
- AnswerCache.WorkContextSources.Resolve: one method for the five sources, which differ only in their question, their attribution check and their reading, all in `AuthorityAnswers`.
- AnswerSharing.AnswersAreFresh: the clock never goes back during a sequence of steps; the host's decision on an answer is one step and its way back part of the time until the store.
- Cancellation of a context while waiting for the mutex, and the projected token file's content.
- `ExchangeOperation`, `MintModuleOperationContext` and the broker's HTTP request: one call each, without kept state.
- Error values are compared by kind; their message texts and the causes they wrap are not modelled, nor are `As` and `Is` methods that other packages' errors may define.
- HostErrors.MapHostError: an RPC error does not already wrap an error of the datasource package.
- `DeclareOperations`, `ListOperations`: a field-by-field mapping.
- The host's deduplication, replay and retention of receipts: not in this repository.
- ConnectBody.ErrorBody.Read: bytes are returned rather than written into the caller's slice; gzip decoding is the source's content or its initialization error.
- `connectJSONErrorBody.Close` and `Client.Do`: closing both readers, and one decision on response headers.
- `newBrokerError`: copying status and a bounded body.
- CatalogValidate.SafeRelativeImportIff: `path.Clean` is described by the relative paths it leaves unchanged, from the documentation of package path.
