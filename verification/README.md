# Verified model of the daemon's core algorithms

The daemon runs untrusted apps in containers and hands out keys, credentials, browser
sessions and tokens to them. This project models the parts of it that decide something, and
proves what those parts promise:

| files | what they model |
|---|---|
| `PrimeField`, `CurveAddition`, `CurveGroup`, `CurveAssociativity`, `Secp` | secp256k1 in `proxy/secp.py`: the Fermat inverse, the affine addition with its case splits, double-and-add, SEC 1 compressed keys. All group laws, associativity included, are proved for the formulas as written, over any prime p > 3 other than 7 |
| `PoolModel`, `PoolRuns`, `PoolDrives`, `BrowserPool` | the browser lease pool of `proxy/browser_pool.py`: acquire, drive, release and the sweeper, interleaved at every await |
| `AuditLedger` | the hash-chained audit ledger of `proxy/audit.py`, with its head file and the adoption of entries from before the chain |
| `Bytes`, `Hex`, `AbiEncoding` | the ABI encoder of `verify/facts.py`, and a decoder written from the ABI specification ("Formal Specification of the Encoding") |
| `TunnelModel`, `TunnelRuns`, `TunnelLife`, `TunnelServer` | the long-poll relay of `examples/tunnel/server.ts`: visitors, polls, relays, timers and the periodic sweep |
| `GrantModel`, `GrantRuns`, `BrokerStore` | the credential broker of `proxy/broker.py`: grants in memory and on disk, proxied calls that save a grant again when they end, restarts |
| `DockerLogs` | the two readers of Docker's log framing in `proxy/docker_client.py` |
| `Hkdf`, `LinkCheck`, `Supervisor` | key derivation, the link checker and the child supervisor of `proxy/runtimes.py` |
| `Paths`, `Scopes`, `TokenModel`, `TokenRuns`, `TokenStore` | scoped API tokens in `proxy/tokens.py` |
| `ModPow` | square-and-multiply in `examples/rsa-timing-demo/server.ts` |
| `Options` | the type of a value that may be missing |

State machines come in two layers. A `...Model` module has the state as a value, one function
for each piece of code between two awaits, and the invariants every step keeps; a `...Runs`
module proves what follows for all runs. Beside them a class has the source's own fields and
updates them in place, and each of its methods is proved to be one step of the model. SHA-256,
HMAC and the file system are parameters or plain state; concurrency is interleaving of steps.

What turned out differently from what the code or its documentation says:

* The docstring of `_load_entries` (`proxy/audit.py:51-53`) says that blanking a later entry's
  hashes "only reconstructs the same value". The code rejects such a file: `BlankedLeadingRun`
  and `BlankedLaterEntry` say exactly which blankings load.
* A failed jar injection that the bridge had applied anyway re-queues the slot without a reset
  (`proxy/browser_pool.py:174-178`): `IsolationExactly` and `UncleanInjection`.
* A drive that has passed its check can reach a container that has another lease by then:
  `ArrivesExactly` and `LateArrival`.
* In the tunnel relay a visitor can be left unanswered exactly if its request was given an id
  whose timer is still outstanding (`StrandedExactly`), and a client can pass over a request
  exactly if a number was given out that is not above all before it, which only a second tunnel
  can bring about (`PassedOverExactly`, `OneTunnelInOrder`).
* Revoking a grant deletes its file so that it is "gone from disk" (`proxy/broker.py:256`), but
  a proxied call that is still in flight writes it again: `FileStaysDeleted` says exactly when.
  The grant stays unusable all the same: `NeverReturned`. A grant that is deleted and not revoked,
  which nothing in the repository does today to a live one, can be returned again in that case:
  `DeletedReturns`.
* `normalize_scope` is not idempotent: `"projects/ /"` becomes `"projects/ "`, which
  `scope_allows` then normalises to `"projects"`. `IdempotentExactly` and `StoredScopeMeans`
  say exactly when the second normalisation changes anything.
* `modPow` returns 1, not 0, for exponent 0 and modulus 1: `RemainderOfPower`.
* A respawn timer that is set when the router begins to stop can still spawn a child while its
  requests drain: `SpawnAfterStop`.

## Model

| member | source | states |
|---|---|---|
| `PrimeField.Fermat` | proxy/secp.py:12-13 | Fermat's little theorem, on which the inverse rests |
| `PrimeField.InvIsInverse` | proxy/secp.py:12-13 | for every x that is not zero modulo the prime, `_inv(x)` is a residue whose product with x is 1 |
| `CurveAddition.SameXSameY` | proxy/secp.py:22-25 | on the curve, equal x and y's that do not cancel force equal y's, so the test for equal points catches every case the chord cannot handle |
| `CurveAddition.ComputedSlope` | proxy/secp.py:24-27 | the denominator that `_add` inverts is never zero modulo p, and the slope it gets is that of the chord or tangent |
| `CurveAddition.SumBySlope` | proxy/secp.py:24-30 | any slope through two points that are not opposite, reduced or not, gives the sum that `_add` returns |
| `CurveGroup.Closure` | proxy/secp.py:16-30 | the sum of two points of the curve is a reduced point of the curve or infinity |
| `CurveGroup.Commutative` | proxy/secp.py:16-30 | `_add(p, q) == _add(q, p)` although it treats its arguments differently |
| `CurveGroup.OppositeSum` | proxy/secp.py:22-23 | `_add` answers infinity on two affine points exactly when one is the negative of the other |
| `CurveGroup.Inverse` | proxy/secp.py:16-30 | every point has exactly one inverse, and inverting twice gives it back |
| `CurveGroup.AddThenSubtract` | proxy/secp.py:16-30 | subtracting what was added gives the point back |
| `CurveAssociativity.Associative` | proxy/secp.py:16-30 | `_add` is associative on all points of the curve, through every combination of chord, tangent, opposite points and infinity |
| `Secp.TimesSum` | proxy/secp.py:33-41 | multiples of a point add up: (j + k)P = jP + kP |
| `Secp.TimesDouble` | proxy/secp.py:33-41 | k copies of P + P are 2k copies of P |
| `Secp.MulStep` | proxy/secp.py:36-40 | one turn of the loop keeps result + rest * addend, for either low bit |
| `Secp.Mul` | proxy/secp.py:33-41 | double-and-add returns the k-fold sum of the point, for every k >= 0 |
| `Secp.CompressInjective` | proxy/secp.py:44-50 | the compressed form has prefix 2 for an even y and 3 for an odd one, then x in 32 bytes, most significant first, and two affine points have the same form exactly when they are equal |
| `Secp.DecompressExactly` | proxy/secp.py:44-50 | the decoder of SEC 1, section 2.3.4, written apart, answers a point exactly for its compressed form |
| `Secp.CompressedPubkey` | proxy/secp.py:44-50 | for the (k mod n)-fold sum (x, y) of the generator the key is 2 or 3 by the parity of y and then the 32 bytes of x, and decodes to that point; k = 0 modulo n is refused, and no key is made for infinity |
| `Secp.PublicKeysAgree` | proxy/secp.py:44-50 | two scalars have the same public key exactly when their multiples of the generator agree |
| `Secp.ReducedScalar` | proxy/secp.py:46 | when n times the generator is infinity, reducing the scalar modulo n changes no public key |
| `Secp.SmallParameters` | proxy/secp.py:6-9 | parameters that meet every condition exist: modulo 11 the point (2, 2) has order 4 |
| `Secp.GeneratorOnCurve` | proxy/secp.py:6-9 | the generator satisfies the curve equation modulo the field modulus, scalars are below it, and coordinates fit in 32 bytes |
| `Secp.Constants` | proxy/secp.py:6-9 | the literal constants meet every condition that the theorems put on the parameters, exactly if the modulus is prime |
| `PoolModel.StepInv` | proxy/browser_pool.py:155-207 | every step of acquire, release and the sweeper, in any order, keeps the partition of slots, the lease table and what each container holds |
| `PoolRuns.PartitionCounts` | proxy/browser_pool.py:218-227 | free slots, held slots and drained slots add up to the size of the pool |
| `PoolRuns.SlotsConserved` | proxy/browser_pool.py:155-207 | in every run no two leases share a slot, no slot is queued twice or queued while leased, and busy slots are leases, acquires and resets in flight, and drained ones |
| `PoolRuns.FirstInFirstOut` | proxy/browser_pool.py:155-207 | in every run slots are taken in the order in which they were queued: the queue at the start and what is queued since is what is taken and the queue at the end |
| `PoolRuns.IsolationExactly` | proxy/browser_pool.py:166-190 | when drive's check passes, the container holds the lease's own jar and nothing else, exactly if failed injections left nothing for another domain there |
| `PoolRuns.Isolation` | proxy/browser_pool.py:166-207 | in runs whose failed injections were not applied, every drive that is allowed finds exactly the jar injected for its lease |
| `PoolRuns.UncleanInjection` | proxy/browser_pool.py:174-178 | a run in which a failed but applied injection puts one caller's jar in front of the next |
| `PoolRuns.DrainedForever` | proxy/browser_pool.py:200-206 | a slot whose reset failed is never queued, acquired or leased again |
| `PoolRuns.ReleasedForever` | proxy/browser_pool.py:195-196 | a lease that has left the lease table never passes drive's check again |
| `PoolRuns.SessionStable` | proxy/browser_pool.py:183-190 | between two moments at which a lease is registered nobody else changes its container's session |
| `PoolDrives.ArrivesExactly` | proxy/browser_pool.py:183-207 | a drive that passed its check and arrives later is sure to meet its lease's session, exactly if by then a registered lease with the same domain and jar has the container, as while the lease itself stays registered, or the container is drained with that session |
| `PoolDrives.RegisteredUntilEnded` | proxy/browser_pool.py:195-196 | a registered lease is still registered exactly if no step since was its release or the sweeper finding it expired |
| `PoolDrives.ArrivesUnlessEnded` | proxy/browser_pool.py:183-207 | a drive is sure to meet its lease's session if no step ended the lease since its check, and otherwise only where another lease or a failed reset has put the same session there |
| `PoolDrives.LateArrival` | proxy/browser_pool.py:187-190 | a run in which a drive arrives after the sweeper has reset the container and meets the next lease's jar alone |
| `PoolRuns.SweepClears` | proxy/browser_pool.py:252-262 | when a sweep has gone through its copy, no lease of the copy that had expired can be driven |
| `BrowserPool.BrowserPool.constructor` | proxy/browser_pool.py:117-137 | starting queues every slot once, in order |
| `BrowserPool.BrowserPool.AcquireSlot` | proxy/browser_pool.py:161-173 | acquire up to its injection takes the oldest free slot and keeps the pool's invariant |
| `BrowserPool.BrowserPool.AcquireDone` | proxy/browser_pool.py:179-181 | after a successful injection the lease is registered, and its container holds what it held and the jar under the lease's domain |
| `BrowserPool.BrowserPool.AcquireFailed` | proxy/browser_pool.py:174-178 | after a failed injection the slot is queued again, and an applied jar stays behind |
| `BrowserPool.BrowserPool.Drive` | proxy/browser_pool.py:187-190 | a drive is allowed exactly for a registered lease, and then meets only that lease's jar if nothing was left over |
| `BrowserPool.BrowserPool.ReleaseStart` | proxy/browser_pool.py:195-198 | release takes the lease off the table once, and the second call does nothing |
| `BrowserPool.BrowserPool.ReleaseDone` | proxy/browser_pool.py:198-207 | a reset container is empty and its slot queued |
| `BrowserPool.BrowserPool.ReleaseFailed` | proxy/browser_pool.py:200-206 | a container that could not be reset is drained with its residue |
| `BrowserPool.BrowserPool.SweepStart` | proxy/browser_pool.py:256-258 | the sweeper takes a copy of the lease table, in some order |
| `BrowserPool.BrowserPool.SweepStep` | proxy/browser_pool.py:258-262 | the sweeper starts releasing a lease exactly if it has expired and is still registered |
| `BrowserPool.BrowserPool.SweepRun` | proxy/browser_pool.py:257-262 | the sweeper runs to its next await: one expired lease is being released, or none of its copy is left |
| `AuditLedger.LoadIff` | proxy/audit.py:42-86 | a file loads, with a given result, exactly when its entries, after adopting a leading run whose two hash fields are empty, are that result, each entry of which names the hash of the one before and carries its own, and the head is the last hash |
| `AuditLedger.FirstBadLine` | proxy/audit.py:64-75 | the first line that does not load decides the error: not JSON, the chain broken, or the entry tampered with; what comes after it and the head do not matter |
| `AuditLedger.ChainUnique` | proxy/audit.py:42-92 | a chain is determined by its last hash |
| `AuditLedger.SameHeadSameHistory` | proxy/audit.py:80-86 | two files that load against the same head have the same history, so no edit, deletion, insertion, reorder or truncation of it goes unnoticed |
| `AuditLedger.TruncationWithHead` | proxy/audit.py:80-85 | cutting off lines that hold an entry is reported as truncation when there is a head |
| `AuditLedger.TruncationWithoutHead` | proxy/audit.py:80-86 | without a head the same cut loads, as a prefix of the history |
| `AuditLedger.BlankedLeadingRun` | proxy/audit.py:66-71 | blanking the hashes of any leading run of entries loads the same history |
| `AuditLedger.BlankedLaterEntry` | proxy/audit.py:66-75 | an entry whose hash fields are both empty, after one that has either, is rejected, with or without a head |
| `AuditLedger.SavedLoads` | proxy/audit.py:94-104 | after appending to a loadable ledger and rewriting the head, it loads as the old entries and the new one |
| `AuditLedger.AppendWithoutHead` | proxy/audit.py:100-103 | after a stop between the append and the head the next load reports truncation exactly if there was a head, and otherwise loads with the new entry |
| `AuditLedger.AuditLogManager.LoadEntries` | proxy/audit.py:57-86 | the loop over the file returns what `LoadIff` characterises, and the first error otherwise |
| `AuditLedger.AuditLogManager.SaveEntry` | proxy/audit.py:94-104 | saving refuses a ledger that does not load and leaves it alone; otherwise the ledger loads with the entry at its end, the head is its hash, and other projects are untouched |
| `AuditLedger.AuditLogManager.DeleteAuditLog` | proxy/audit.py:121-128 | deleting removes file and head of one project, whose ledger is then empty |
| `Bytes.BigEndianRoundTrip` | verify/facts.py:582 | big-endian words and numbers are inverse, and writing fails exactly on overflow |
| `Bytes.FromConcat` | verify/facts.py:582 | bytes before others weigh a power of 256 more, so the first byte is the most significant |
| `Hex.HexRoundTrip` | verify/facts.py:574 | reading back what hex wrote gives the bytes |
| `Hex.ReadsWhatHexWrites` | verify/facts.py:574 | what fromhex accepts is, but for white space and upper case, what hex writes of the bytes it returns |
| `Hex.FromHexConcat` | verify/facts.py:574 | a text is read piece by piece: if its first part reads, the whole reads exactly if the rest does, and to the bytes of both |
| `AbiEncoding.ElementLocated` | verify/facts.py:597-604 | the offset of each advisory string lands on that string, whatever the lengths before it |
| `AbiEncoding.CalldataLayout` | verify/facts.py:585-608 | the calldata is the selector, the offset 32, and then the bytes of the seven hex fields in their order, each in a word of its own after zeros, and the offset 288 |
| `AbiEncoding.DynamicLayout` | verify/facts.py:578-608 | the length and bytes of the status string stand right after the head; its offset word leads to the list, the first offset of which is counted from the word after the count, and each offset leads to the length and bytes of its string |
| `AbiEncoding.TupleParts` | verify/facts.py:596-607 | in the tuple both offsets lead to their data: the string right after the head, the array after the string |
| `AbiEncoding.TupleRoundTrip` | verify/facts.py:605-607 | decoding the tuple by the ABI's offsets recovers the seven words, the string and the array it was made of |
| `AbiEncoding.BytesRecovered` | verify/facts.py:573-608 | for fields that read as hex the encoder succeeds exactly when they fit their types and the numbers fit their words, and decoding its text by the ABI rules gives the bytes of every field after zeros, and the strings |
| `AbiEncoding.Spellings` | verify/facts.py:574 | every field can be spelled in hex digits, with and without 0x |
| `AbiEncoding.EncodingInjective` | verify/facts.py:585-608 | two calls agree exactly when their strings do and their hex fields stand for the same numbers, so for fields of full size exactly when they have the same bytes |
| `AbiEncoding.EncodingLength` | verify/facts.py:580-608 | the calldata is four bytes and a whole number of 32-byte words |
| `AbiEncoding.EncodeSucceeds` | verify/facts.py:573-608 | the encoder raises exactly when a hex field is malformed or too long for its type, or a length or offset does not fit in a word |
| `AbiEncoding.FirstFailure` | verify/facts.py:573-595 | the first hex field that is malformed or too long decides the error, and overflow is only met without one |
| `TunnelModel.StepPromises` | examples/tunnel/server.ts:108-138 | every step keeps one timer for each pending request and one resolution for each call that is not pending |
| `TunnelRuns.ResolvedExactlyOnce` | examples/tunnel/server.ts:108-138 | in every run each visitor's promise is resolved at most once among relay, timer and sweep, and exactly once by the time its timer has fired |
| `TunnelRuns.StrandedExactly` | examples/tunnel/server.ts:128-136 | a visitor can be left unanswered after its timer has fired, exactly if its request got the id of a timer still outstanding |
| `TunnelRuns.ReusedId` | examples/tunnel/server.ts:128-135 | an example of it: both timers fire and the second visitor has no answer |
| `TunnelRuns.ScanLeast` | examples/tunnel/server.ts:97-102 | the first pending request above a number, in insertion order, is the least one |
| `TunnelRuns.DeliveredInOrder` | examples/tunnel/server.ts:89-135 | with any number of tunnels, in every run whose requests get numbers above the client's last one and every pending one, a client polling with its last number gets strictly increasing numbers, each the least pending one, and passes over nothing that is still pending |
| `TunnelRuns.OneTunnelInOrder` | examples/tunnel/server.ts:89-135 | with one tunnel ever created every run is of that kind |
| `TunnelRuns.PassedOverExactly` | examples/tunnel/server.ts:94-100 | from any state in order, a client that can poll may pass over a pending request with no further request coming in, exactly if the number just assigned is not above its last one and every pending one |
| `TunnelRuns.PassedOverSomewhere` | examples/tunnel/server.ts:94-100 | the same whether or not a tunnel can still be polled, since another may be created |
| `TunnelRuns.SharedPending` | examples/tunnel/server.ts:23-25 | an example with two tunnels: the client of one is handed the other's request, and its own, with the same number, is passed over |
| `TunnelLife.AdmitsUntilDeadline` | examples/tunnel/server.ts:62-65 | a tunnel made at any time in any state, which nobody deletes, lets visitors and polls in through any run exactly until that time plus its lifetime |
| `TunnelLife.NumberedFromOne` | examples/tunnel/server.ts:129-130 | through any run the requests of a tunnel are numbered 1, 2, 3, ... in the order in which they are published |
| `TunnelServer.TunnelServer.CreateTunnel` | examples/tunnel/server.ts:62-65 | a new tunnel is in the map, has numbered nothing, and expires as many seconds from now as were asked for, up to the greatest number allowed |
| `TunnelServer.TunnelServer.VisitStart` | examples/tunnel/server.ts:122-127 | a visitor is refused with 404 or 410, the latter dropping the tunnel, or goes on |
| `TunnelServer.TunnelServer.VisitCommit` | examples/tunnel/server.ts:128-136 | a visitor's request gets the next number of its tunnel, comes last among the pending ones and has a timer due in 30 seconds, and every promise is still accounted for if no outstanding timer has its id |
| `TunnelServer.TunnelServer.PollStart` | examples/tunnel/server.ts:90-95 | a poll is refused with 404 or 410, the latter dropping the tunnel, or listens for 25 seconds |
| `TunnelServer.TunnelServer.PollPass` | examples/tunnel/server.ts:97-102 | one pass of the poll loop returns the first pending request, in insertion order, with a number above the one given, as in `ScanLeast` |
| `TunnelServer.TunnelServer.PollTurn` | examples/tunnel/server.ts:96-104 | what a pass finds ends the poll, and the client has it with a higher number than before |
| `TunnelServer.TunnelServer.PollStop` | examples/tunnel/server.ts:96-105 | a poll that found nothing for 25 seconds ends and changes nothing else |
| `TunnelServer.TunnelServer.RelayResponse` | examples/tunnel/server.ts:112-118 | a relay answers the pending request of its id, and is refused when there is none |
| `TunnelServer.TunnelServer.TimerFires` | examples/tunnel/server.ts:133-135 | a visitor who has no answer when the timer fires gets the 504, and any other answer stays |
| `TunnelServer.TunnelServer.SweepTunnels` | examples/tunnel/server.ts:40-42 | the sweep drops exactly the expired tunnels |
| `TunnelServer.TunnelServer.SweepPending` | examples/tunnel/server.ts:43-48 | the sweep answers and removes exactly the requests older than a minute, in order |
| `TunnelServer.TunnelServer.SweepAll` | examples/tunnel/server.ts:38-49 | the whole sweep drops the expired tunnels, removes the requests older than 60000 ms and answers those with the 504, and keeps every promise accounted for |
| `GrantModel.StepInv` | proxy/broker.py:167-357 | every step keeps memory and files in agreement, and every other file or object dead |
| `GrantRuns.MemoryAndFiles` | proxy/broker.py:204-357 | in every run from any set of files, a grant in memory and its file are the same, and a file without a grant is revoked or expired |
| `GrantRuns.NeverReturned` | proxy/broker.py:209-259 | a grant that was revoked or found expired is returned by no get or list in any continuation, whatever calls in flight save and however often the broker restarts |
| `GrantRuns.KeptUntilExpiry` | proxy/broker.py:209-357 | a grant that nobody revokes or renews is returned unchanged until it expires, through restarts |
| `GrantRuns.CreatedUntilDeadline` | proxy/broker.py:167-237 | a grant made at time t with ttl n is returned by get, and by list to those who ask for its project or for all, as it was given and exactly before t + n, or for ever without a ttl or with 0: in every run without its revocation, renewal or the loss of its file |
| `GrantRuns.RenewedUntilDeadline` | proxy/broker.py:261-287 | a grant that is renewed is returned with the new secret and scope where they are given, exactly until the new time to live, or the old expiry without one |
| `GrantRuns.RestartInvisible` | proxy/broker.py:328-357 | a restart between writes changes no answer of get or list |
| `GrantRuns.FileStaysDeleted` | proxy/broker.py:250-259 | the file of a revoked grant stays deleted in every continuation exactly when no proxied call held the grant |
| `GrantRuns.DeletedReturns` | proxy/broker.py:239-248 | a grant that is deleted without being revoked can be returned again exactly if it was alive and a proxied call held it |
| `GrantRuns.CalledGrant` | proxy/broker.py:389-391 | a run from an empty store to such a state: a grant that is created and called |
| `GrantRuns.RenewedWhileInMemory` | proxy/broker.py:261-287 | renewing works exactly for a grant still in memory with a positive time to live, or without one while it has not expired |
| `BrokerStore.BrokerStore.Recover` | proxy/broker.py:328-357 | a new process holds exactly the grants of the readable files that are alive, and unlinks the others |
| `BrokerStore.BrokerStore.CreateGrant` | proxy/broker.py:167-207 | a new object with the fields given, entered and saved; it expires after its time to live, and never without one or with 0 |
| `BrokerStore.BrokerStore.GetGrant` | proxy/broker.py:209-218 | returns the object itself when it is alive, and deletes it when it has expired |
| `BrokerStore.BrokerStore.RevokeGrant` | proxy/broker.py:250-259 | marks the object, which others may hold, and deletes entry and file |
| `BrokerStore.BrokerStore.ReauthorizeGrant` | proxy/broker.py:261-287 | sets the secret, the expiry and the scope that are given, in place, and saves the object, without asking whether it has expired |
| `BrokerStore.BrokerStore.ProxyStart` | proxy/broker.py:389-391 | a proxied call starts only with a grant that get returns, and keeps the object |
| `BrokerStore.BrokerStore.ProxyEnd` | proxy/broker.py:477-479 | its end stamps and saves that object, wherever it is by then |
| `BrokerStore.BrokerStore.ListGrants` | proxy/broker.py:220-237 | lists the live grants of the project and deletes its dead ones |
| `BrokerStore.BrokerStore.CleanupExpired` | proxy/broker.py:314-320 | deletes exactly the expired grants |
| `DockerLogs.FramesUnique` | proxy/docker_client.py:56-63 | cutting frames off the front recovers any list of frames and the rest after it |
| `DockerLogs.FrameLayout` | proxy/docker_client.py:50-63 | a frame is the stream byte, three bytes, the size with its most significant byte first, and the payload |
| `DockerLogs.SplitsOnce` | proxy/docker_client.py:56-63 | a body splits into frames and an unframed rest in exactly one way |
| `DockerLogs.Demux` | proxy/docker_client.py:50-66 | the index loop returns what `DemuxedMeaning` describes |
| `DockerLogs.DemuxedMeaning` | proxy/docker_client.py:50-66 | demultiplexing inverts framing for every list of frames with stream bytes 0 to 2, and returns any other body as it is |
| `DockerLogs.StreamReader.ReadExactly` | proxy/docker_client.py:293-298 | reading exactly n bytes, or failing with what is left |
| `DockerLogs.StreamLogs` | proxy/docker_client.py:291-298 | the streaming loop yields the payload of every complete frame, and raises exactly when the body is not a list of frames |
| `DockerLogs.ReadersAgree` | proxy/docker_client.py:50-66 | the streaming reader succeeds with the same bytes as the buffered one exactly on bodies framed with stream bytes 0 to 2 |
| `Hkdf.Expand` | proxy/runtimes.py:59-68 | the loop over the counter returns what `FirstOctets` describes |
| `Hkdf.FirstOctets` | proxy/runtimes.py:59-68 | for a length of at most 255 * 32, and no greater one, the first octets of T(1), T(2), ... of RFC 5869 section 2.3 |
| `Hkdf.EachOctet` | proxy/runtimes.py:59-67 | with T(0) empty and T(k) the HMAC under the extracted key of T(k-1), info and the octet k in this order, octet j of the output is octet j mod 32 of T(j div 32 + 1) |
| `Hkdf.ShorterIsPrefix` | proxy/runtimes.py:66-67 | a shorter output is a prefix of a longer one |
| `Hkdf.NegativeLength` | proxy/runtimes.py:66-67 | a negative length is not refused and cuts octets off the first block |
| `Paths.ComponentPrefix` | proxy/runtimes.py:194 | "equal, or starting with root and a slash" means that the root's components are the first components of the path |
| `Paths.SplitPlain` | proxy/tokens.py:167 | the components of a path contain no slash |
| `LinkCheck.UnsafeLink` | proxy/runtimes.py:188-203 | the recursive walk returns what the two lemmas below describe, and ends |
| `LinkCheck.SafeExactly` | proxy/runtimes.py:188-203 | the walk finds nothing exactly when every link anywhere in the tree resolves to a root or below one and, where asked, no other file has a second link |
| `LinkCheck.FirstRefused` | proxy/runtimes.py:188-203 | otherwise it returns the directory and the names on the way to the first refused entry in walk order, joined by slashes |
| `Supervisor.StepInv` | proxy/runtimes.py:233-265 | every step, failing starts included, keeps at most one start, child or timer under way |
| `Supervisor.OneChild` | proxy/runtimes.py:233-265 | in every run at most one child is alive, the client is that of the last child before its exit is seen, and until the router stops something is under way exactly if no call of run has failed |
| `Supervisor.ServedUntilExit` | proxy/runtimes.py:252-264 | a child whose socket is found before its exit is seen gets the client and keeps it in every run until its exit is seen, and one without a socket after 120 seconds is killed |
| `Supervisor.BackoffExactly` | proxy/runtimes.py:247-250 | the delay is a second after the first exit and after a child that ran for over 60 seconds, and otherwise twice the one before, up to a minute, which is reached at the seventh exit of a streak |
| `Supervisor.SpawnAfterStop` | proxy/runtimes.py:246-250 | once the router is stopping, and until it exits, a child can still be spawned exactly if a start or a respawn timer was outstanding |
| `Supervisor.StoppedBetween` | proxy/runtimes.py:308-313 | a run to such a state: the child has died and the router stops while the respawn timer runs |
| `Supervisor.OverIsOver` | proxy/runtimes.py:308-313 | when the requests are drained and the router has exited nothing happens any more |
| `Supervisor.SupervisedApp.SpawnChild` | proxy/runtimes.py:233-238 | a call of run, once the old socket is gone, becomes the one child |
| `Supervisor.SupervisedApp.WatchChild` | proxy/runtimes.py:238-252 | once its environment is written a child is polled and its exit will be seen |
| `Supervisor.SupervisedApp.ExitCallback` | proxy/runtimes.py:242-251 | the exit callback drops the client and sets one timer unless the router is stopping |
| `Supervisor.SupervisedApp.PollTurn` | proxy/runtimes.py:252-264 | a turn of the polling loop installs the client exactly for a socket found of a child not seen to exit, kills a child that has none after 120 seconds, and otherwise polls on until the exit |
| `Supervisor.SupervisedApp.TimerFires` | proxy/runtimes.py:250 | the respawn timer becomes the one call of run |
| `Scopes.NormalizeNormal` | proxy/tokens.py:160-174 | a normalised scope is empty, or starts with an API prefix and has no empty component or outer slash |
| `Scopes.NormalizeExactly` | proxy/tokens.py:160-174 | white space outside and slashes inside are stripped; then the name of a project stands for projects/name, a path without empty component that starts with an API prefix for itself, and anything else is no scope |
| `Scopes.IdempotentExactly` | proxy/tokens.py:160-174 | normalising is idempotent exactly when no trailing white space survives it |
| `Scopes.SpaceSurvives` | proxy/tokens.py:163 | a family of scopes whose second normalisation drops a component |
| `Scopes.AllowsExactly` | proxy/tokens.py:177-182 | a scope allows a path exactly when its normalised components are the first components of the path |
| `Scopes.AllowsBelow` | proxy/tokens.py:177-182 | a scope that allows a path allows everything below it |
| `Scopes.StoredScopeMeans` | proxy/tokens.py:67-98 | a stored token allows what the requested scope allows exactly when no trailing white space survived |
| `TokenModel.StepInv` | proxy/tokens.py:63-157 | every operation keeps dict and files in agreement and ids and digests distinct |
| `TokenRuns.FilesAgree` | proxy/tokens.py:63-157 | after every operation of every run the files are exactly the tokens in memory |
| `TokenRuns.AuthenticatesExactly` | proxy/tokens.py:90-99 | a bearer authenticates exactly when a token has its digest, is neither expired nor revoked and allows the path |
| `TokenRuns.RevokedForever` | proxy/tokens.py:110-117 | a revoked token authenticates nothing again, in any continuation and after any restart |
| `TokenRuns.ExpiredForever` | proxy/tokens.py:41-46 | an expired token authenticates nothing again |
| `TokenRuns.AuthenticatesUntilExpiry` | proxy/tokens.py:90-157 | a token that is not revoked, and whose file stays readable, authenticates until it expires, through clean-ups and restarts |
| `TokenRuns.IssuedUntilDeadline` | proxy/tokens.py:63-99 | the bearer of a token issued at time t with ttl n authenticates a path, as that token, exactly before t + n and if the normalised scope allows the path: in every run without its revocation or the loss of its file |
| `TokenRuns.CleanDeletes` | proxy/tokens.py:128-130 | a clean-up leaves exactly the tokens whose deadline is still to come, in the dict and on disk |
| `TokenRuns.RestartInvisible` | proxy/tokens.py:132-153 | a restart changes no answer, in whatever order the directory lists the files |
| `TokenRuns.GoneAfterADay` | proxy/tokens.py:64-65 | no token authenticates 86400 seconds after any moment at which it existed |
| `TokenStore.TokenStore.CreateToken` | proxy/tokens.py:63-88 | refuses a time to live outside 1 to 86400 and a scope that does not normalise, in that order, and changes nothing then; otherwise the token it returns, with the normalised scope and its deadline, is the new last one of the dict and is saved |
| `TokenStore.TokenStore.AuthenticateBearer` | proxy/tokens.py:90-99 | the loop returns the live token of the digest if its scope allows the path, and deletes exactly the expired tokens in front of the live token of the digest |
| `TokenStore.TokenStore.CleanupExpired` | proxy/tokens.py:128-130 | deletes exactly the expired tokens |
| `TokenStore.TokenStore.ListTokens` | proxy/tokens.py:101-108 | deletes the expired tokens and lists the others, revoked ones too, sorted |
| `TokenStore.SortedByCreation` | proxy/tokens.py:108 | the sorted list has the same tokens in the order of their creation, and in dict order where that is equal |
| `TokenStore.TokenStore.RevokeToken` | proxy/tokens.py:110-117 | marks the token in memory and on disk |
| `TokenStore.TokenStore.Recover` | proxy/tokens.py:132-153 | the dict becomes the readable, unexpired files, the others are unlinked |
| `ModPow.Compute` | examples/rsa-timing-demo/server.ts:32-44 | the loop returns what `RemainderOfPower` and `Congruent` describe, with one squaring a binary digit of the exponent and one multiplication a set digit |
| `ModPow.RemainderOfPower` | examples/rsa-timing-demo/server.ts:32-44 | for a non-negative exponent and any base the result is the remainder of the power, exactly unless the exponent is 0 and the modulus 1 or -1 |
| `ModPow.Congruent` | examples/rsa-timing-demo/server.ts:32-44 | for a modulus above 1 the result is congruent to the power and smaller than the modulus; for a base of at least 0 it is the power modulo it |
| `ModPow.SetBitsAreOnes` | examples/rsa-timing-demo/server.ts:37-39 | the number of multiplications is the number of ones among the binary digits |
| `ModPow.CountBits` | examples/rsa-timing-demo/server.ts:46-51 | the loop counts the binary digits |
| `ModPow.BitLengthUnique` | examples/rsa-timing-demo/server.ts:46-51 | for x > 0 the bit length is the only n with 2^(n-1) <= x < 2^n |

## Left out

- Secp.CompressedPubkey: that the literal field modulus is prime and that n times the generator is infinity are not proved; the first is the only condition missing for the literal constants (see Constants), the second is used by ReducedScalar alone; everything else holds for any prime above 3 other than 7, where the curve is singular.
- PoolRuns.SlotsConserved: task cancellation and stop() are not steps of the pool; a cancelled acquire can strand a slot.
- PoolModel.StepInv: the sweeper may be interrupted between any two leases of its copy, which is more than the code allows.
- AuditLedger.SameHeadSameHistory: SHA-256 is a function without collisions that never returns the empty string; a ledger without a head is covered by TruncationWithoutHead alone.
- AbiEncoding.BytesRecovered: strings are their UTF-8 bytes; a bytes32 value that is shorter than 32 bytes comes back right-justified, as the code writes it.
- TunnelRuns.DeliveredInOrder: request ids are not reused while their timer is outstanding (see StrandedExactly). There is one client, which gives up a poll when it starts another, and no answer to it is lost on the way.
- TunnelModel.StepPromises: a lifetime that does not parse as a number is not modelled, nor are the authorisation of tunnel creation and the contents of requests and responses.
- TunnelServer.TunnelServer.RelayResponse: starts after the body is read; the 404 for a tunnel that has left the map, decided before that, is not modelled, so a relay may come to a request of any tunnel.
- GrantModel.StepInv: delete by itself, which is only reached through get, list, cleanup_expired and revoke, is no step of the runs; what it would do to a live grant is DeletedReturns.
- GrantRuns.NeverReturned: the clock does not go back, ids are drawn once, and the files were written by the broker under their own ids.
- BrokerStore.BrokerStore.ListGrants: the order in which grants are listed, that of the dict, is not modelled.
- PoolDrives.ArrivesExactly: a render changes nothing in its container; cookies that a site sets meanwhile are not modelled.
- PoolRuns.SessionStable: for the same reason a late drive of an earlier lease leaves the session as it is.
- TokenRuns.AuthenticatesExactly: SHA-256 has no collisions and secrets are drawn once, so digests are distinct.
- DockerLogs.StreamLogs: status checks, the raw copy for containers with a terminal, and UTF-8 decoding.
- Supervisor.OneChild: after a failed start nothing more is spawned for the app; that a failure on the first start is caught and logged (`proxy/runtimes.py:287-288`), and a later one is an unhandled rejection that ends the router, is not told apart.
- The checks between get and the upstream request in BrokerProxy.handle (token, method and path pins), and the unsealing of secrets: a proxied call starts or it does not.
- HTTP, WebSocket and TCP proxying, Docker and dstack calls, git, subprocesses and file-system errors.
- Evidence assembly, quote verification, source and measurement comparison, reports, the dashboard and the command line: mostly field copying or foreign code.
- Timing and constant-time behaviour.
