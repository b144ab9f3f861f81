# service-discover: a Dafny model and its proofs

service-discover sets up a Consul cluster on the hosts of a mail system. LDAP holds the list of servers and the
encrypted credentials of the cluster, the first server creates the secrets, later servers and agents fetch them, and
services on each node get ACL tokens from a shared Consul. This project models the parts of it that carry a protocol,
a loop or arithmetic, and proves what they keep.

| file | models |
|---|---|
| `GoText.dfy` | the functions of Go's `strings` package that the rest needs |
| `LegacyTokens.dfy` | the recogniser that decides which token descriptions may be deleted |
| `ServiceTokens.dfy` | the ensure and prune commands as automata over Consul requests and replies, and what Consul may do |
| `TokenRuns.dfy`, `TokenPolicies.dfy` | any number of ensures and prunes interleaved call by call, over whole runs |
| `TokenCommands.dfy` | the commands as methods, proved to send exactly what the automata ask and to end where they end |
| `PruneReport.dfy` | one prune: what it reports and spares under any interleaving, and what it leaves alone with the store |
| `Outcomes.dfy` | what the answers to a command must be for it to create, refuse or succeed, and that it succeeds when Consul answers it |
| `TokenFile.dfy` | the atomic replacement of the token file on a file system that may stop anywhere |
| `NodeNames.dfy` | Consul node names, and which hosts share a token |
| `Interfaces.dfy` | the in-place interface filter, bind address validation and saving |
| `Slices.dfy` | swap-remove, moving to the front and distinctness, shared by several modules |
| `Archive.dfy` | reading named files out of a tar archive through an aliased slice |
| `Paths.dfy` | `path/filepath` and the names `AddFile` gives to archive entries |
| `Base64.dfy` | standard base64, section 4 of RFC 4648 |
| `Credentials.dfy` | the archive of the four secrets: what goes in, and what comes out |
| `Ldap.dfy` | LDAP connections, the registry of services, the stored credentials |
| `PlainCodec.dfy` | a codec that meets what is assumed of OpenPGP |
| `SetupSteps.dfy` | the steps of each kind of setup and their order |
| `Handoff.dfy` | setups of one host after another, from an empty registry |
| `Daemon.dfy` | the size of a quorum and the command line of the daemon |
| `Polling.dfy`, `Bootstrap.dfy` | the bounded waits, against a clock and under every interleaving |

## How the outside world appears

- Consul is a map from AccessorID to token. Each call is one step and may fail; a create, update or delete may take
  effect although its reply is lost; a read may return the redacted secret. Consul rejects a create whose AccessorID is
  in use, and an update that does not carry the stored secret.
- A name-based UUID is a constructor over its name, so it is collision-free on names and disjoint from random UUIDs.
- LDAP is one directory behind all URLs, with one entry per host name. A dial, a bind, a search and a Modify may fail,
  and a failed Modify may have been applied.
- OpenPGP over tar is a pair of functions, `seal` and `open`, that invert each other for the right password and fail
  for any other (`Credentials.Sound`; `PlainCodec.SoundCodecExists` shows that such a pair exists). Commands, resolvers,
  systemd and the file system of the setups are calls that succeed or fail freely. A clock moves by any amount during
  a call.
- Whether a call failed is recorded where it is made, in ghost state that the operations only read: the dials and the
  failed calls of LDAP, the failed calls of the file system, the leader lookups, the token creates and the answers of
  set-agent-token. So every operation can say that it fails for those failures and for no other reason.
- A setup also records its steps. `SetupSteps.Progress` says that they are its plan up to some point, and all of it
  exactly when it succeeds.

## Where the code differs from what one would expect

- The comment at `pkg/encrypter/writer.go:82-86` and the example at `pkg/encrypter/writer_test.go:218-226` say that ""
  and relative directories work and that "/test" stores under `test/`. The code rejects every directory that is not
  rooted, and drops the last element: `Paths.AddFileNeedsRootedDirectory`, `Paths.LastElementDropped`.
- `NonLoopbackInterfaces` is said to return all interfaces but the loopback one. With two interfaces that case-fold to
  "lo" it can index out of range; `Interfaces.NonLoopbackInterfaces` gives the exact condition and
  `Interfaces.TwoLoopbacksCanPanic` an input. With at most one it never does.
- The timeout of the ACL bootstrap does not call the goroutine off, so a bootstrap can succeed after the setup has
  returned the timeout, and its secret is lost. `Bootstrap.SuccessIsLost` says exactly in which states this can still
  happen, `Bootstrap.TimedOutForEver` that nobody then receives the message, and `Bootstrap.TimeoutCanLoseSuccess` is
  a run from the start that ends so.
- A first server that fails between registering itself and its upload blocks every later setup of every host. So does
  one that succeeds with a damaged archive, since `createEncryptedSecret` ignores the error of closing it
  (`cmd/server/command/setup/firstsetup.go:245`): `Handoff.Rollout`.
- The key of a service token is the text `service/node`, so two pairs share a token as soon as one part holds a slash:
  `ServiceTokens.AccessorOwnership` is exact, and `NodeNames.TokensShared` says which hosts share one otherwise.
- The sizes handed to Consul overlap for daemons that read the same list or lists one server apart. Beyond that they
  need not: `Daemon.QuorumsAcrossLists` is exact.

## Model

| member | source | states |
|---|---|---|
| LegacyTokens.RecogniserMeetsDefinition | pkg/command/service_token.go:223-239 | the recogniser accepts exactly the descriptions whose text before the first slash is a legacy name and in which some later word is a host name, or a host name and one dot; it depends on the word list alone |
| LegacyTokens.ScriptDescriptionsDecided | pkg/command/service_token.go:170-176 | a description of the old layout is accepted exactly on a node it lists, for a name that is a legacy name |
| LegacyTokens.BashDescriptionDecided | pkg/command/service_token_test.go:162 | the multi-line layout of the shell scripts is accepted on exactly the nodes it lists |
| LegacyTokens.PlainDescriptionDecided | pkg/command/service_token.go:172 | the layout name/fqdn, for an fqdn without a final dot, is accepted exactly when the fqdn itself is a host name |
| LegacyTokens.DottedDescriptionDecided | pkg/command/service_token.go:232-236 | a host name with the final dot of DNS stands for the host name without it |
| LegacyTokens.OwnDescriptionDecided | pkg/command/service_token.go:223-239 | a text that starts with "carbonio/" is accepted exactly when "carbonio" is a legacy name and a word of the rest names the host |
| LegacyTokens.ServiceTokenDescriptionDecided | pkg/command/service_token.go:49-51 | no description of the deterministic scheme is taken for a legacy one unless "carbonio" is a legacy name |
| ServiceTokens.AccessorOwnership | pkg/command/service_token.go:43-45 | a service and node own their AccessorID exactly when neither holds a slash |
| TokenRuns.StepKeeps | pkg/command/service_token.go:123-221 | every API call of every ensure and prune, and every change by others to foreign tokens, keeps the invariant and all deterministic tokens with their secrets |
| TokenRuns.RunInvariant | pkg/command/service_token.go:123-221 | the invariant holds at every point of every run |
| TokenRuns.RunKeeps | pkg/command/service_token.go:123-221 | a deterministic token, once there, stays with its secret for the rest of the run |
| TokenRuns.AtMostOneCreate | pkg/command/service_token.go:131-147 | at most one token is ever created under a deterministic AccessorID, lost replies included |
| TokenRuns.EnsuredSecretIsKept | pkg/command/service_token.go:123-168 | the secret a successful ensure returned is the stored one for ever after |
| TokenRuns.EnsuresAgree | pkg/command/service_token.go:123-168 | all successful ensures on one AccessorID return one secret |
| TokenRuns.MatchingIsForeign | pkg/command/service_token.go:207-210 | no list reply, however stale when used, makes a prune set out to delete a deterministic token |
| TokenRuns.PruneDeletesOnlyForeign | pkg/command/service_token.go:189-217 | every delete of a prune leaves all deterministic tokens alone and happens while the token of its own service and node exists |
| TokenRuns.PruneReportsOnlyForeign | pkg/command/service_token.go:205-220 | a prune never reports a deterministic token as deleted |
| TokenPolicies.PolicyStep | pkg/command/service_token.go:157-165 | while the ensures at work on one AccessorID all use one policy, writing back a stale copy adds nothing but that policy |
| TokenPolicies.LinksOnlyGrow | pkg/command/service_token.go:157-165 | while the ensures at work on one AccessorID all use one policy, whatever other nodes use, its links are never lost or reordered |
| TokenPolicies.PolicyStaysLinked | pkg/command/service_token.go:157-167 | under the same condition the policy is linked for ever after the first success |
| TokenCommands.EnsureServiceToken | pkg/command/service_token.go:123-168 | runs the ensure automaton once from its start, sends exactly its requests, and returns the secret or error to which the replies bring it; so what is proved of answered histories holds of every call |
| TokenCommands.PruneLegacyServiceTokens | pkg/command/service_token.go:177-221 | the same for the prune automaton, with the accessors deleted and the error |
| TokenCommands.DeleteMatching | pkg/command/service_token.go:205-220 | the delete loop walks the matching entries in list order and stops at the first failure with those deleted so far |
| PruneReport.DeletesInOrder | pkg/command/service_token.go:205-220 | from any point of the loop, the rest of the targets is deleted in order up to the first failure |
| PruneReport.FinishedPrune | pkg/command/service_token.go:177-221 | a finished prune reports, in list order, exactly the accessors of the entries that are not its own and whose description names a legacy token of this host, up to the first failing delete, and the store is the old one without exactly those; a lost reply may also have removed the failing one; a prune that fails earlier changes nothing |
| PruneReport.MatchingSelects | pkg/command/service_token.go:207-210 | what a prune sets out to delete are, in list order, exactly the entries with another accessor whose words name a legacy token of this host |
| PruneReport.ReportInOrder | pkg/command/service_token.go:205-220 | whatever the store does between its calls, a prune has at any moment deleted those accessors of its list, in order, up to the first delete that failed, or stopped before with nothing deleted |
| TokenRuns.RunReacts | pkg/command/service_token.go:123-221 | in every run each command is where the replies it got in that run have brought it, each an answer to what it asked |
| PruneReport.RunReportsInOrder | pkg/command/service_token.go:177-221 | so in every run, with the replies of that run, a prune has deleted those accessors of its list in order up to the first failure |
| PruneReport.NeverDeletesOwn | pkg/command/service_token.go:207-210 | whatever it is answered and whatever the legacy names, a prune never deletes the token of its own service and node |
| Outcomes.NotFoundMeansMissing | pkg/command/service_token.go:402-412 | a failed call counts as a missing token exactly for status 404, or 403 with "ACL not found" somewhere in its body |
| Outcomes.MissingTokenIsCreated | pkg/command/service_token.go:131-147 | after a failed read an ensure creates, with this accessor, description and policy, exactly when the token is missing; any other failure ends it |
| Outcomes.CreateNeedsMissing | pkg/command/service_token.go:131-137 | a create is only ever the third request, after a read answered as missing |
| Outcomes.MissingTokenIsRefused | pkg/command/service_token.go:191-198 | a prune whose own token is missing ends as not ensured, after any other failed read as unreadable, and deletes nothing |
| Outcomes.SecretIDIsUuid | pkg/command/service_token.go:241-245 | a secret is adopted exactly when it is five groups of 8, 4, 4, 4 and 12 hexadecimal digits |
| Outcomes.RedactedIsRefused | pkg/command/service_token.go:153-155 | a token whose secret Consul hides is refused |
| Outcomes.FiveCallsAtMost | pkg/command/service_token.go:123-168 | an ensure makes at most five requests, whatever it is answered |
| Outcomes.AnsweredEnsureSucceeds | pkg/command/service_token.go:123-168 | in every run, an ensure whose own calls are answered returns the secret of the stored token, whether that was there, missing, or created by another ensure in between |
| Outcomes.AnsweredPruneSucceeds | pkg/command/service_token.go:177-221 | in every run, a prune whose own calls are answered fails only for want of its own token |
| TokenFile.WriteTokenFile | pkg/command/service_token.go:280-324 | in every state a stop could leave, the target holds its old content or the whole new file; it succeeds exactly when the owner is known and no call fails; an error leaves all files as they were unless the removal of the temporary file itself failed; success leaves secret, mode and owner in a directory that exists; only directories that lead to the target are made |
| TokenFile.OwnershipIs | pkg/command/service_token.go:284-321 | mode 0600; the owner is the uid and gid of the user database, -1 keeps the group, and a negative uid or no owner means the process itself |
| TokenFile.FillAndRename | pkg/command/service_token.go:307-323 | the same for the part from the write to the rename |
| TokenFile.FillAndRemove | pkg/command/service_token.go:305-323 | with the deferred removal: no temporary file is left on success or error but one whose removal failed |
| TokenFile.RunEnsure | pkg/command/service_token.go:74-86 | a failing run leaves the token file as it was; a successful one leaves the secret its ensure ended with; it fails only where the client, the ensure, the owner or a file does |
| GoText.AtoiReads | pkg/command/service_token.go:289-290 | the uid and gid of an owner are the numbers their texts stand for, with either sign |
| GoText.AtoiGivesUp | pkg/command/service_token.go:289-290 | the errors of Atoi are ignored: what is no number is 0, what is out of range the nearest int |
| NodeNames.NodeNameCollisions | pkg/command/common.go:221-223 | two hosts get one node name exactly when role and host name agree up to dots and dashes |
| NodeNames.NodeNameReads | pkg/command/common.go:221-223 | the role, a dash, and the host name with dashes for dots |
| NodeNames.TokensShared | pkg/command/service_token.go:43-45 | without slashes, two ensures share a token exactly when service, role and host name up to dots and dashes agree |
| Interfaces.NonLoopbackInterfaces | pkg/command/common.go:133-147 | panics exactly when a loopback stands in the tail that the shrinking loop no longer covers; otherwise leaves a permutation of exactly the other interfaces |
| Interfaces.OneLoopbackIsFine | pkg/command/common.go:139-144 | with at most one loopback the loop stays in bounds |
| Interfaces.LoopbackNames | pkg/command/common.go:140 | exactly the four spellings of lo count as the loopback interface |
| Interfaces.TwoLoopbacksCanPanic | pkg/command/common.go:139-144 | two interfaces named "lo" and "LO" around a third make it index out of range |
| Interfaces.CheckValidBindingAddress | pkg/command/common.go:113-130 | accepts exactly the addresses of the given interfaces, with or without mask |
| Interfaces.AcceptedForms | pkg/command/common.go:119 | an address is accepted in full or without its mask, and in no other form |
| Interfaces.SavedIsHostPart | pkg/command/common.go:205-210 | an accepted address is saved as the host part of the address it was accepted for |
| Interfaces.ChooseBindAddress | cmd/server/command/setup/firstsetup.go:38-46 | filter, check and save together: saved exactly when an interface other than a loopback has the address, as the host part of that address |
| Archive.ReadFiles | pkg/encrypter/reader.go:67-110 | succeeds exactly when all is readable and the requests are distinct and all present, with each content whatever the entry order; otherwise reports the requests, repetitions counted, minus one copy of each found name; never indexes out of range |
| Archive.EntryTaken | pkg/encrypter/reader.go:81-96 | the first match of the whole array lies in the shrunk slice, and the multiset of remaining requests stays right |
| Archive.SlotsAreRequests | pkg/encrypter/reader.go:69-96 | stale slots beyond the shrunk slice hold requests only, and a request not found yet is inside it |
| Archive.SearchEnds | pkg/encrypter/reader.go:99-107 | nothing remains exactly when the requests are distinct and all present |
| Paths.AddFileNeedsRootedDirectory | pkg/encrypter/writer.go:93-98 | `AddFile` accepts a directory exactly when it is rooted |
| Paths.LastElementDropped | pkg/encrypter/writer.go:93-100 | the last element of the directory does not count |
| Paths.ArchiveNameIsClean | pkg/encrypter/writer.go:87-103 | for a rooted directory and a file name without ".." the stored name is clean, relative and free of ".." |
| Paths.StoredBelow | pkg/encrypter/writer.go:87-103 | what any name is stored under in any rooted directory: below the directory less its last element, with the name of stat where none is given |
| Paths.StoredUnderRoot | pkg/encrypter/writer.go:87-103 | what a name is stored under when the directory is the root |
| Paths.StoredIsRequested | cmd/server/command/setup/firstsetup.go:191-196 | an absolute path is stored under the name a later setup computes exactly when, read as relative, it does not climb out; in particular every clean path |
| Paths.KeysAgree | cmd/server/command/setup/importsetup.go:71-84 | with one rooted home, the key written and the key requested agree exactly when the home does not climb |
| Paths.KeysMeet | cmd/server/command/setup/importsetup.go:71-84 | for any two homes, the key requested is the key written exactly when the one is rooted and leads from the root where the other leads, read as relative |
| Paths.KeyEndsWithFile | cmd/agent/command/setup/setup.go:392-400 | written and requested keys end in the file's own name, so keys of different files never meet |
| Paths.CleanIsIdempotentAtRoot | pkg/encrypter/writer.go:93-95 | a rooted path is clean after one cleaning, and relative to the root it is the same before and after |
| Paths.ReduceLaws | pkg/encrypter/writer.go:93-100 | what cleaning does to elements: "." and empty ones vanish anywhere, an element cancels with a ".." behind it, a ".." at the root vanishes, and nothing else changes |
| Paths.CleanMeans | pkg/encrypter/writer.go:93-100 | the elements of a cleaned path are those left by these laws, below the root exactly when the path was |
| Base64.RoundTrip | pkg/carbonio/ldap.go:73-74 | decoding what was uploaded gives the uploaded bytes |
| Base64.BreaksDoNotMatter | pkg/carbonio/ldap.go:121 | also with a line break anywhere in the stored value |
| Base64.DecodableIs | pkg/carbonio/ldap.go:121 | exactly the texts that decode: line breaks aside, groups of four symbols of the alphabet with at most two pads at the end |
| Base64.SymbolsInOrder | pkg/carbonio/ldap.go:73-74 | the standard alphabet, and no other character is a symbol |
| Credentials.CreateEncryptedSecret | cmd/server/command/setup/firstsetup.go:225-265 | every file goes in exactly once under its archive name, in any order of the map; it fails exactly when a file cannot be read, and the archive is damaged exactly when closing it fails |
| Credentials.FilesAreWellNamed | cmd/server/command/setup/firstsetup.go:191-196 | the four files get four different names, each ending in the name that says which secret it is |
| Credentials.PackedSecrets | cmd/server/command/setup/firstsetup.go:191-201 | a finished archive holds exactly the four secrets under exactly the four names |
| Credentials.RequestsDiffer | cmd/server/command/setup/importsetup.go:91-97 | the four names requested are distinct, whatever the home |
| Credentials.Extract | cmd/server/command/setup/importsetup.go:65-100 | extraction succeeds exactly when the password is right, the archive can be read to its end and the homes agree, and then yields the secrets put in |
| Credentials.KeysPresent | cmd/agent/command/setup/setup.go:392-406 | the four names asked for are all in the archive exactly when the homes agree |
| PlainCodec.SoundCodecExists | pkg/encrypter/reader.go:21-44 | a pair of seal and open as assumed of OpenPGP over tar exists |
| Ldap.LdapContext.Connect | pkg/carbonio/ldap.go:199-251 | tries masters, then replicas unless writing, in order up to the first that connects; succeeds exactly when one does and lets it bind; keeps the stored master list; opens one connection or none |
| Ldap.AppendAll | pkg/carbonio/ldap.go:200-205 | appending replicas, in place or not, leaves the master URLs as they were |
| Ldap.LdapContext.ModifyEnabledServices | pkg/carbonio/ldap.go:260-315 | success makes exactly the change to the registry map, any error but a failed Modify leaves it alone; where no call fails it succeeds exactly for a server with an entry; no Modify is sent that section 4.6 of RFC 4511 rejects, and every connection is closed |
| Ldap.LdapContext.QueryAllServersWithService | pkg/carbonio/ldap.go:161-188 | dials masters, then replicas; succeeds exactly when no call fails, with the distinct host names, in directory order, of exactly the hosts that have the service; closes its connection |
| Ldap.LdapContext.CheckServerAvailability | pkg/carbonio/ldap.go:139-148 | dials as a read or a write does, succeeds exactly when a connection is made, closes it and changes nothing |
| Ldap.LdapContext.UploadBinary | pkg/carbonio/ldap.go:65-84 | dials masters only; succeeds exactly when no call fails; replaces the value by the encoded content, or leaves it on an error; closes its connection |
| Ldap.LdapContext.DownloadBinary | pkg/carbonio/ldap.go:86-122 | dials masters, then replicas; where no call fails, yields the decoded value when there is one that decodes, and otherwise the error for the one that is missing or corrupt; closes its connection |
| Ldap.UpdateLaws | pkg/carbonio/ldap.go:150-158 | add and remove are idempotent, undo each other where they did something, and leave other hosts and services alone |
| Ldap.RegistryAfter | pkg/carbonio/ldap.go:296-309 | a Modify of one entry refines the update of the map from host to set of services |
| Ldap.ListedAreRegistered | pkg/carbonio/ldap.go:182-187 | the list holds exactly the hosts of the map that have the service |
| Ldap.ServersListed | pkg/carbonio/ldap.go:182-187 | the list of servers is distinct |
| Ldap.RunOperations | pkg/carbonio/ldap.go:150-158 | any sequence of adds and removes acts on the map as the sequence of those applied; where no call fails, exactly those on hosts with an entry are |
| Handoff.Cluster.IsFirstInstance | cmd/server/command/setup/common.go:215-234 | true exactly when there is no local credential file and no server is registered |
| Handoff.Cluster.FirstSetup | cmd/server/command/setup/firstsetup.go:69-221 | takes the steps of a first server in their order, and succeeds exactly when it takes them all; wherever it fails, it registered itself with its own secrets or left the registry alone; success comes after a poll that saw a leader and a create that issued the node token, and leaves it registered, its secrets installed and its archive uploaded; where nothing outside fails it succeeds exactly when the host has an entry and the bootstrap answer is readable; no more temporary secrets are left than removals failed |
| Handoff.Cluster.Register | cmd/server/command/setup/firstsetup.go:127-130 | an empty registry gains a first server exactly when the change took effect, also behind an error |
| Handoff.Cluster.Bootstrap | cmd/server/command/setup/firstsetup.go:132-218 | polls, bootstrap, tokens, upload and unit in this order; nothing is uploaded or installed before the polls of this setup saw a leader, and the node token is the one its creates issued |
| Handoff.Cluster.NodeToken | pkg/command/common.go:225-323 | the token is that of the last create made here, handed to the local agent, all with this root token; it is there exactly when the root token holds no NUL byte, the last create issued one and the agent took it |
| Handoff.Cluster.PackAndUpload | cmd/server/command/setup/firstsetup.go:167-211 | only an archive of the first server's secrets is ever uploaded, and of its two temporary files no more are left than removals failed |
| Handoff.Cluster.Fetch | cmd/server/command/setup/importsetup.go:55-100 | yields only the first server's secrets, and once downloaded exactly when the password is right, the archive readable and the two homes agree; where no call fails the download is there exactly when there was an upload |
| Handoff.Cluster.ImportSetup | cmd/server/command/setup/importsetup.go:27-206 | takes the steps of a later server in their order; success installs the first server's gossip key, CA and root token, with its password, and registers the host; without an archive that opens it registers nothing; the CA key is gone on return unless writing or removing it failed; where nothing outside fails it succeeds exactly when the archive opens, the host has an entry and the root token is readable |
| Handoff.Cluster.AgentSetup | cmd/agent/command/setup/setup.go:349-549 | takes the steps of an agent in their order; success installs the first server's gossip key, CA and root token, with its password, leaves the registry alone and no temporary CA key; a failure leaves that key only if removals failed; where nothing outside fails it succeeds exactly when the host is not configured, the archive opens for its home and the root token is readable |
| Handoff.Cluster.ServerSetup | cmd/server/command/setup/common.go:165-213 | the chosen path installs the secrets of the one first server, which never changes once there is one; a host already configured is refused; where nothing outside fails, the exact condition for success |
| Handoff.Cluster.Act | cmd/server/command/setup/common.go:165-234 | one setup of a rollout, server or agent: where nothing outside fails, the files on its host, its LDAP entry and the uploaded archive decide whether it succeeds |
| Handoff.Cluster.Announce | cmd/server/command/setup/firstsetup.go:69-130 | the first path up to its registration, which comes only after certificates and configuration |
| Handoff.Cluster.CertifyAgent | cmd/agent/command/setup/setup.go:408-448 | the CA key is in a temporary file only while the certificate is made; more such files are left only where removals failed |
| SetupSteps.Plans | cmd/server/command/setup/firstsetup.go:62-221 | the steps of a first server, a later server and an agent in full and in order |
| Handoff.NextCanSucceed | cmd/server/command/setup/common.go:165-234 | on prepared hosts, as long as all have succeeded, the next one meets its condition |
| Handoff.Rollout | cmd/server/command/setup/common.go:165-234 | over any sequence of unforced setups, failing anywhere: at most one first-path setup registers itself, every success ends with what that setup made, every successful server stays registered; every success but the first server's opened its archive with its password and an agreeing home, so nobody succeeds after one that never uploaded or uploaded a damaged archive; and from an empty registry, on prepared hosts, where nothing fails, every setup succeeds |
| Handoff.AddServiceInLdap | pkg/command/common.go:195-202 | the list of servers grows by the host or not at all, and success puts the host in it |
| Handoff.RunDaemon | cmd/service-discoverd/service-discoverd.go:139-166 | gets past its query exactly when no call fails, and then starts Consul exactly when the registry agrees with its role, told of the listed servers |
| Handoff.AddAndStart | cmd/service-discoverd/service-discoverd.go:264-280 | a host just added always passes as a server and never as an agent; where no call fails, exactly a host with an entry gets there |
| Daemon.MeetByCounting | cmd/service-discoverd/service-discoverd.go:235 | groups of two sizes on nested lists always meet exactly when together they outnumber the larger list |
| Daemon.JoinServers | cmd/service-discoverd/service-discoverd.go:249-262 | the loop joins all listed servers but the local one, in order, and notes whether that was listed |
| Daemon.LeastQuorum | cmd/service-discoverd/service-discoverd.go:235 | for a distinct list, the number on the command line is at most its length and the least whose groups always share a server |
| Daemon.QuorumsAcrossLists | cmd/service-discoverd/service-discoverd.go:235 | the numbers on the command lines for two distinct nested lists: their quorums always meet exactly for lists at most one apart, or two apart with the shorter even |
| GoText.ItoaIsRead | cmd/service-discoverd/service-discoverd.go:235 | the printed number is read back as itself |
| Daemon.StartConsul | cmd/service-discoverd/service-discoverd.go:227-298 | reaches Exec with exactly this command line and environment when the role agrees with the list, and otherwise stops with exit code 1004 |
| Daemon.CommandLineTells | cmd/service-discoverd/service-discoverd.go:229-262 | "-server" and "-bootstrap-expect", with half the list and one, are there for servers only, the configuration directory for both, and a join for exactly the other listed servers, and for a server itself |
| Daemon.EveryServerJoinedOnce | cmd/service-discoverd/service-discoverd.go:249-262 | a server joins every listed server exactly once, itself first and the rest in LDAP order; an agent joins the list in order |
| Polling.WaitForConsulLeader | cmd/server/command/setup/firstsetup.go:292-311 | at most timeout/interval + 2 polls; success exactly when the last poll sees a leader; failure only past the deadline, and never when a leader is stably visible from one request timeout before it |
| Polling.CreateACLToken | pkg/command/common.go:225-301 | no create after a successful one, and none without a try at its policy; creates begin at least a second apart, and after the deadline only by a select that picks the timer; the result is that of the last; it gives up only past the deadline; every call finds the root token in its environment, which holds it no longer afterwards; one with a NUL byte is refused |
| Polling.AtMost31ByTheDeadline | pkg/command/common.go:255-290 | at most 31 creates begin by the deadline |
| Polling.SetACLToken | pkg/command/common.go:303-323 | hands over exactly this token and returns the answer, with the root token in the environment during the call only |
| Bootstrap.StepKeeps | cmd/server/command/setup/firstsetup.go:316-362 | every step of goroutine, ticker and select keeps the invariant |
| Bootstrap.RunInvariant | cmd/server/command/setup/firstsetup.go:316-362 | the invariant holds at every point of every interleaving |
| Bootstrap.SendNeverBlocks | cmd/server/command/setup/firstsetup.go:322-347 | the channel is empty whenever the goroutine sends, and it sends once |
| Bootstrap.NoCommandAfterVerdict | cmd/server/command/setup/firstsetup.go:329-348 | no bootstrap command follows a success or a fatal error |
| Bootstrap.ReturnCarriesTheVerdict | cmd/server/command/setup/firstsetup.go:352-356 | a return other than the timeout carries the outcome of the last command, which succeeded or failed for another reason than a missing leader; every command before it is one the code retries |
| Bootstrap.CommandsAreBounded | cmd/server/command/setup/firstsetup.go:323-329 | at most one command per tick, 120 by the timeout |
| Bootstrap.TimeoutIsNotEarly | cmd/server/command/setup/firstsetup.go:352-361 | the timeout is returned only after 30 seconds, and can be at any time from then on |
| Bootstrap.TimedOutForEver | cmd/server/command/setup/firstsetup.go:352-361 | after the timeout nobody ever receives the message, and at most one more command starts |
| Bootstrap.SuccessIsLost | cmd/server/command/setup/firstsetup.go:325-361 | after the timeout a success is there or can still come exactly when the last command succeeded, one is in progress, or a tick is left to a waiting goroutine |
| Bootstrap.TimeoutCanLoseSuccess | cmd/server/command/setup/firstsetup.go:357-360 | a run from the start in which the bootstrap succeeds after the timeout has been returned |

## Left out

- Case-insensitive matching of LDAP values, filter metacharacters in host names, replicas that lag behind, and changes by others between a search and its Modify.
- Several entries for one host name: one entry per host is an assumption of the registry.
- SHA-1 and the bytes of UUIDs; of the forms `uuid.Parse` accepts only the canonical one.
- OpenPGP, armor and tar bytes. An archive whose closing failed is one that cannot be read to its end.
- Archives with repeated entry names, which `pkg/encrypter/writer.go:83-84` declares undefined.
- Several ensures on one AccessorID with different policies: the code promises nothing about the links then.
- The flag that forces the first path, the wizards, setups that run at the same time, and removals from LDAP between setups.
- TokenFile.WriteTokenFile: does not model a target whose own name fits the pattern of temporary names, ids beyond 32 bits, or directory modes.
- Handoff.Cluster.FirstSetup: the ACL bootstrap inside it is a call that may fail; it is modelled on its own in `Bootstrap.dfy`.
- Polling.CreateACLToken: the rendering of the policy template is left out, and so is a run of late selects without end.
- The local host names are a parameter of a prune; the DNS lookups behind them are not modelled.
- `gatherInputs` on agents: a copy of the interface loop modelled in `Interfaces.dfy`.
- The contents of `main.json` and of certificates, and the arguments of the commands that make them: steps of a setup that succeed or fail.
- `addGrpcTLS`, `config` commands, local configuration, JSON and XML: single-field edits over library code.
- Terminal, formatter and command line parsing, systemd, Docker, packaging and mocks.
